/**
 * The command dispatcher (Core/Src/BOOT_PROCESS.C): the opcode table built by
 * PROCESS_INIT, the decoding of each command frame at its fixed offsets, the
 * HAL calls each handler makes, and the exact bytes it sends back. The HAL is
 * an oracle: the i-th HAL call a handler makes gets `answer(i)`, and
 * HAL_FLASH_GetError returns `error`.
 */
module BootProcess {
  import opened Machine
  import opened BootInfo
  import BootCopy
  import WordArith
  import BootCntrl

  // HAL_FLASH_ERROR_* bits as HAL_FLASH_GetError reports them (STM32F4 HAL).
  const HalFlashErrorRd: Word := 0x0000_0001
  const HalFlashErrorPgs: Word := 0x0000_0002
  const HalFlashErrorPgp: Word := 0x0000_0004
  const HalFlashErrorPga: Word := 0x0000_0008
  const HalFlashErrorWrp: Word := 0x0000_0010
  const HalFlashErrorOperation: Word := 0x0000_0020

  /** OPTCR_BYTE0_ADDRESS of the STM32F4 HAL: the first byte of FLASH_OPTCR. */
  const OptcrByte0Address: Word := 0x4002_3C14

  // Frame layout.
  const CmdSize: nat := 1
  const AddressOffset: nat := 1
  const SectorOffset: nat := 1
  const DataOffset: nat := 5
  const SizeOffset: nat := 8
  const BlockSize: nat := 4

  /**
   * The address of word `idx` of a block: `Address + (idx << TYPEPROGRAM)`
   * with TYPEPROGRAM = FLASH_TYPEPROGRAM_WORD = 2, a 32-bit addition.
   */
  function WordAddress(address: Word, idx: nat): Word {
    WordArith.At(address, 4 * idx)
  }

  /** Bytes of RxBuffer some handler reads: PROG reads up to byte 5 + (3 << 2). */
  const RxMin: nat := DataOffset + 4 * (BlockSize - 1) + 1

  /** Bytes of TxBuffer some handler writes: READ fills four words. */
  const TxMin: nat := 4 * BlockSize

  /** The HAL calls a handler can make, with the arguments the handler passes. */
  datatype HalCall =
    | UnlockCall                              // HAL_FLASH_Unlock
    | LockCall                                // HAL_FLASH_Lock
    | ProgramCall(address: Word, data: Word)  // HAL_FLASH_Program(FLASH_TYPEPROGRAM_WORD, ...)
    | EraseCall(sector: Word, count: Word)    // HAL_FLASHEx_Erase, sector erase on bank 1
    | MassEraseCall                           // HAL_FLASHEx_Erase, mass erase on bank 1
    | ObUnlockCall                            // HAL_FLASH_OB_Unlock
    | ObLockCall                              // HAL_FLASH_OB_Lock
    | ObProgramCall(enable: bool, wrpMask: Word) // HAL_FLASHEx_OBProgram, OPTIONBYTE_WRP on bank 1
    | CopyCall(src: Word, dest: Word, size: Word) // BOOT_CPY_IMAGE
    | TransferCall(address: Word)             // BOOT_TRANSFER_CNTRL

  /**
   * What the HAL answers during one command: the i-th call gets `answer(i)`,
   * HAL_FLASH_GetError returns `error`, HAL_FLASHEx_Erase leaves `sectorError`
   * in its out-parameter, `mem` is memory as the core reads it, and `junk` is
   * whatever an uninitialised local of BOOT_CPY_IMAGE holds.
   */
  datatype Hal = Hal(answer: nat -> BootCopy.HalResult, error: Word, sectorError: Word, mem: Mem, junk: Word)

  /** The effect of one command: the HAL calls made, the bytes sent, and both buffers afterwards. */
  datatype Reply = Reply(calls: seq<HalCall>, sent: seq<Byte>, rx: seq<Byte>, tx: seq<Byte>)

  /** The handlers PROCESS_INIT installs. */
  datatype Handler =
    | ProcessGet | ProcessFlashUnlock | ProcessFlashLock | ProcessFlashProg | ProcessFlashRead
    | ProcessFlashErase | ProcessFlashMassErase | ProcessFlashCpy | ProcessTransferCntrl
    | ProcessObUnlock | ProcessObLock | ProcessObRead | ProcessWrProtect | ProcessWrUnprotect

  /**
   * How a host reads a reply: a first byte ACK is success, NACK is failure,
   * and anything else (raw data, or nothing) is not a status reply.
   */
  function ReplyStatus(sent: seq<Byte>): Option<bool> {
    if |sent| > 0 && sent[0] == AckMsg then Some(true)
    else if |sent| > 0 && sent[0] == NackMsg then Some(false)
    else None
  }

  // ---------------------------------------------------------------------------
  // SEND_ACK and SEND_NACK
  // ---------------------------------------------------------------------------

  /** The code byte SEND_NACK sends for a HAL_FLASH_GetError value: an exact match on one flag, else 0. */
  function NackCode(error: Word): Byte {
    if error == HalFlashErrorRd then RdprErrMsg
    else if error == HalFlashErrorPgs then PgsErrMsg
    else if error == HalFlashErrorPgp then PgpErrMsg
    else if error == HalFlashErrorPga then PgaErrMsg
    else if error == HalFlashErrorWrp then WrpErrMsg
    else if error == HalFlashErrorOperation then OpErrMsg
    else 0x00
  }

  /** The six single HAL error flags. */
  const SingleFlags: seq<Word> :=
    [HalFlashErrorPgs, HalFlashErrorPgp, HalFlashErrorPga, HalFlashErrorWrp, HalFlashErrorRd, HalFlashErrorOperation]

  /**
   * Each single HAL error flag gets the error code at the same position of the
   * code table (PGS to E1 ... OPERATION to E6), and every other value,
   * zero or several flags at once, gets 0x00.
   */
  lemma NackCodeTable(error: Word)
    ensures forall k :: 0 <= k < |SingleFlags| ==> NackCode(SingleFlags[k]) == ErrorCodes[k]
    ensures error !in SingleFlags <==> NackCode(error) == 0x00
  {
  }

  /** Different single flags give different codes, so the code byte identifies the flag. */
  lemma NackCodeInjective(e1: Word, e2: Word)
    requires e1 in SingleFlags && e2 in SingleFlags && e1 != e2
    ensures NackCode(e1) != NackCode(e2)
  {
  }

  /** SEND_ACK: TxBuffer[0] = ACK_MSG, one byte sent. */
  function SendAck(calls: seq<HalCall>, rx: seq<Byte>, tx: seq<Byte>): (r: Reply)
    requires |tx| >= 1
    ensures ReplyStatus(r.sent) == Some(true) && |r.sent| == CmdSize
    ensures r.calls == calls && r.rx == rx && |r.tx| == |tx| && r.tx[0] == AckMsg
    ensures forall i :: 1 <= i < |tx| ==> r.tx[i] == tx[i]
  {
    Reply(calls, [AckMsg], rx, tx[0 := AckMsg])
  }

  /**
   * SEND_NACK: NACK_MSG is written into RxBuffer[0] and sent from there, then
   * the code byte is written into TxBuffer[0] and sent.
   */
  function SendNack(calls: seq<HalCall>, rx: seq<Byte>, tx: seq<Byte>, error: Word): (r: Reply)
    requires |rx| >= 1 && |tx| >= 1
    ensures ReplyStatus(r.sent) == Some(false) && r.sent == [NackMsg, NackCode(error)]
    ensures r.calls == calls && |r.rx| == |rx| && r.rx[0] == NackMsg && r.rx[1..] == rx[1..]
    ensures |r.tx| == |tx| && r.tx[0] == NackCode(error) && r.tx[1..] == tx[1..]
  {
    var code := NackCode(error);
    Reply(calls, [NackMsg, code], rx[0 := NackMsg], tx[0 := code])
  }

  /** `if (call) SEND_NACK(); else SEND_ACK();` */
  function AckOrNack(calls: seq<HalCall>, ok: bool, rx: seq<Byte>, tx: seq<Byte>, error: Word): (r: Reply)
    requires |rx| >= 1 && |tx| >= 1
    ensures ReplyStatus(r.sent) == Some(ok) && r.calls == calls
    ensures ok ==> r.sent == [AckMsg] && r.rx == rx && r.tx == tx[0 := AckMsg]
    ensures !ok ==> r.sent == [NackMsg, NackCode(error)] && r.rx == rx[0 := NackMsg] && r.tx == tx[0 := NackCode(error)]
  {
    if ok then SendAck(calls, rx, tx) else SendNack(calls, rx, tx, error)
  }

  // ---------------------------------------------------------------------------
  // Handlers with one HAL call and an ACK or NACK
  // ---------------------------------------------------------------------------

  /**
   * The handlers that make one HAL call and answer ACK when it returns
   * HAL_OK and NACK with the error code otherwise: flash unlock and lock,
   * option-byte unlock and lock, and the two write-protection commands.
   */
  function SingleCallReply(call: HalCall, rx: seq<Byte>, tx: seq<Byte>, hal: Hal): (r: Reply)
    requires |rx| >= 1 && |tx| >= 1
    ensures r.calls == [call]
    ensures ReplyStatus(r.sent) == Some(hal.answer(0) == BootCopy.HalOk)
    ensures hal.answer(0) == BootCopy.HalOk ==> r.sent == [AckMsg] && r.rx == rx
    ensures hal.answer(0).HalError? ==> r.sent == [NackMsg, NackCode(hal.error)] && r.rx == rx[0 := NackMsg]
  {
    AckOrNack([call], hal.answer(0) == BootCopy.HalOk, rx, tx, hal.error)
  }

  /**
   * Byte 1 of a write-protection frame, widened into the `uint32_t` WRPSector
   * field. The HAL reads that field as a mask of OB_WRP_SECTOR_x bits, not as
   * a sector number, so the byte reaches it as a raw mask.
   */
  function WrpMaskArg(rx: seq<Byte>): Word
    requires |rx| > SectorOffset
  {
    rx[SectorOffset] as Word
  }

  // ---------------------------------------------------------------------------
  // PROCESS_FLASH_PROG_CMD
  // ---------------------------------------------------------------------------

  /** The 32-bit little-endian field at `off` of a frame. */
  function Field(rx: seq<Byte>, off: nat): Word
    requires off + 4 <= |rx|
  {
    LoadLe32(rx, off)
  }

  /** Whether the first `n` HAL calls all returned HAL_OK. */
  predicate AllOk(answer: nat -> BootCopy.HalResult, n: nat) {
    forall i :: 0 <= i < n ==> answer(i) == BootCopy.HalOk
  }

  /**
   * How many program calls the loop makes from word `idx` on: it stops
   * right after the first call that does not return HAL_OK.
   */
  function Attempts(answer: nat -> BootCopy.HalResult, idx: nat): (n: nat)
    requires idx <= BlockSize
    ensures n <= BlockSize - idx
    ensures idx < BlockSize ==> 1 <= n
    ensures forall j :: idx <= j < idx + n - 1 ==> answer(j) == BootCopy.HalOk
    ensures n < BlockSize - idx ==> answer(idx + n - 1).HalError?
    decreases BlockSize - idx
  {
    if idx == BlockSize then 0
    else if answer(idx).HalError? then 1
    else 1 + Attempts(answer, idx + 1)
  }

  /**
   * Program call `idx` as written: to `Address + (idx << 2)`, with the single
   * byte RxBuffer[5 + (idx << 2)] as the data argument, widened to 32 bits
   * (`char` is unsigned on this target).
   */
  function ProgCall(rx: seq<Byte>, idx: nat): HalCall
    requires idx < BlockSize && |rx| >= RxMin
  {
    ProgramCall(WordAddress(Field(rx, AddressOffset), idx), rx[DataOffset + 4 * idx] as Word)
  }

  /**
   * PROCESS_FLASH_PROG_CMD as written: the program calls are made in word
   * order until one fails; ACK only when all four returned HAL_OK, else NACK
   * right after the first failure.
   */
  function ProgReply(rx: seq<Byte>, tx: seq<Byte>, hal: Hal): (r: Reply)
    requires |rx| >= RxMin && |tx| >= 1
    ensures 1 <= |r.calls| <= BlockSize
    ensures forall i :: 0 <= i < |r.calls| ==> r.calls[i] == ProgCall(rx, i)
    ensures ReplyStatus(r.sent) == Some(AllOk(hal.answer, BlockSize))
    ensures AllOk(hal.answer, BlockSize) ==> |r.calls| == BlockSize && r.sent == [AckMsg] && r.rx == rx
    ensures !AllOk(hal.answer, BlockSize) ==>
              AllOk(hal.answer, |r.calls| - 1) && hal.answer(|r.calls| - 1).HalError?
              && r.sent == [NackMsg, NackCode(hal.error)] && r.rx == rx[0 := NackMsg]
  {
    var n := Attempts(hal.answer, 0);
    var calls := seq(n, i requires 0 <= i < n => ProgCall(rx, i));
    AckOrNack(calls, n == BlockSize && hal.answer(BlockSize - 1) == BootCopy.HalOk, rx, tx, hal.error)
  }

  /**
   * The data argument as written carries only one byte of each word: for a
   * frame whose first data word is 0x44332211, the first call programs 0x00000011.
   */
  lemma ProgDropsUpperBytes(rx: seq<Byte>, hal: Hal)
    requires |rx| >= RxMin
    requires rx[5] == 0x11 && rx[6] == 0x22 && rx[7] == 0x33 && rx[8] == 0x44
    ensures Field(rx, DataOffset) == 0x4433_2211
    ensures ProgReply(rx, [0], hal).calls[0].data == 0x0000_0011
  {
  }

  /** The length of a program frame: opcode, address and four data words. */
  const ProgFrameSize: nat := DataOffset + 4 * BlockSize

  /** Program call `idx` as evidently intended: the whole word at byte 5 + (idx << 2). */
  function ProgCallFixed(rx: seq<Byte>, idx: nat): HalCall
    requires idx < BlockSize && |rx| >= ProgFrameSize
  {
    ProgramCall(WordAddress(Field(rx, AddressOffset), idx), Field(rx, DataOffset + 4 * idx))
  }

  /** PROCESS_FLASH_PROG_CMD with the data argument it evidently intends. */
  function ProgReplyFixed(rx: seq<Byte>, tx: seq<Byte>, hal: Hal): (r: Reply)
    requires |rx| >= ProgFrameSize && |tx| >= 1
    ensures 1 <= |r.calls| <= BlockSize
    ensures forall i :: 0 <= i < |r.calls| ==> r.calls[i] == ProgCallFixed(rx, i)
    ensures ReplyStatus(r.sent) == Some(AllOk(hal.answer, BlockSize))
    ensures AllOk(hal.answer, BlockSize) ==> |r.calls| == BlockSize && r.sent == [AckMsg] && r.rx == rx
    ensures !AllOk(hal.answer, BlockSize) ==>
              AllOk(hal.answer, |r.calls| - 1) && hal.answer(|r.calls| - 1).HalError?
              && r.sent == [NackMsg, NackCode(hal.error)] && r.rx == rx[0 := NackMsg]
  {
    var n := Attempts(hal.answer, 0);
    var calls := seq(n, i requires 0 <= i < n => ProgCallFixed(rx, i));
    AckOrNack(calls, n == BlockSize && hal.answer(BlockSize - 1) == BootCopy.HalOk, rx, tx, hal.error)
  }

  // ---------------------------------------------------------------------------
  // Handlers that send raw data
  // ---------------------------------------------------------------------------

  /** Four bytes at `off` that hold the little-endian image of `w` load back as `w`. */
  lemma LoadOfImage(b: seq<Byte>, off: nat, w: Word)
    requires off + 4 <= |b| && b[off..off + 4] == Le32Bytes(w)
    ensures LoadLe32(b, off) == w
  {
    LoadOfLe32Bytes(w);
    LoadLe32Local(b, Le32Bytes(w), off, 0);
  }

  /** Four words stored one after another, little-endian: each loads back from its place. */
  function BlockImage(w0: Word, w1: Word, w2: Word, w3: Word): (b: seq<Byte>)
    ensures |b| == TxMin
    ensures LoadLe32(b, 0) == w0 && LoadLe32(b, 4) == w1 && LoadLe32(b, 8) == w2 && LoadLe32(b, 12) == w3
  {
    var p0, p1, p2, p3 := Le32Bytes(w0), Le32Bytes(w1), Le32Bytes(w2), Le32Bytes(w3);
    var b := p0 + p1 + p2 + p3;
    assert b[0..4] == p0 && b[4..8] == p1 && b[8..12] == p2 && b[12..16] == p3;
    LoadOfImage(b, 0, w0);
    LoadOfImage(b, 4, w1);
    LoadOfImage(b, 8, w2);
    LoadOfImage(b, 12, w3);
    b
  }

  /**
   * PROCESS_FLASH_READ_CMD: the four words from the frame's address on are
   * copied into TxBuffer and its first 16 bytes are sent, with no ACK; a host
   * decoding the reply as little-endian words gets the words of memory.
   */
  function ReadReply(rx: seq<Byte>, tx: seq<Byte>, hal: Hal): (r: Reply)
    requires |rx| >= RxMin && |tx| >= TxMin
    ensures r.calls == [] && r.rx == rx && |r.sent| == TxMin
    ensures var address := Field(rx, AddressOffset);
            LoadLe32(r.sent, 0) == hal.mem(WordAddress(address, 0))
            && LoadLe32(r.sent, 4) == hal.mem(WordAddress(address, 1))
            && LoadLe32(r.sent, 8) == hal.mem(WordAddress(address, 2))
            && LoadLe32(r.sent, 12) == hal.mem(WordAddress(address, 3))
    ensures |r.tx| == |tx| && r.tx[..TxMin] == r.sent && r.tx[TxMin..] == tx[TxMin..]
  {
    var data := ReadBlock(hal.mem, Field(rx, AddressOffset));
    Reply([], data, rx, data + tx[TxMin..])
  }

  /** The four words from `address` on, as the bytes a little-endian dump of them sends. */
  function ReadBlock(mem: Mem, address: Word): (b: seq<Byte>)
    ensures |b| == TxMin
    ensures LoadLe32(b, 0) == mem(WordAddress(address, 0)) && LoadLe32(b, 4) == mem(WordAddress(address, 1))
    ensures LoadLe32(b, 8) == mem(WordAddress(address, 2)) && LoadLe32(b, 12) == mem(WordAddress(address, 3))
  {
    BlockImage(mem(WordAddress(address, 0)), mem(WordAddress(address, 1)),
               mem(WordAddress(address, 2)), mem(WordAddress(address, 3)))
  }

  /** PROCESS_OB_READ_CMD: the word at OPTCR_BYTE0_ADDRESS, four bytes, no ACK. */
  function ObReadReply(rx: seq<Byte>, tx: seq<Byte>, hal: Hal): (r: Reply)
    requires |tx| >= TxMin
    ensures r.calls == [] && r.rx == rx
    ensures r.sent == Le32Bytes(hal.mem(OptcrByte0Address))
    ensures LoadLe32(r.sent, 0) == hal.mem(OptcrByte0Address)
    ensures |r.tx| == |tx| && r.tx[..4] == r.sent && r.tx[4..] == tx[4..]
  {
    var data := Le32Bytes(hal.mem(OptcrByte0Address));
    LoadOfLe32Bytes(hal.mem(OptcrByte0Address));
    Reply([], data, rx, data + tx[4..])
  }

  // ---------------------------------------------------------------------------
  // PROCESS_GET_CMD
  // ---------------------------------------------------------------------------

  /** The concatenation of a sequence of byte strings. */
  function Flatten(bs: seq<seq<Byte>>): seq<Byte> {
    if bs == [] then [] else bs[0] + Flatten(bs[1..])
  }

  /** Four-byte blocks lie side by side in their concatenation. */
  lemma {:induction false} FlattenQuads(bs: seq<seq<Byte>>)
    requires forall k :: 0 <= k < |bs| ==> |bs[k]| == 4
    ensures |Flatten(bs)| == 4 * |bs|
    ensures forall k :: 0 <= k < |bs| ==> Flatten(bs)[4 * k..4 * k + 4] == bs[k]
  {
    if bs != [] {
      FlattenQuads(bs[1..]);
      var f := Flatten(bs);
      assert f == bs[0] + Flatten(bs[1..]);
      forall k | 0 <= k < |bs|
        ensures f[4 * k..4 * k + 4] == bs[k]
      {
        if k > 0 {
          assert bs[1..][k - 1] == bs[k];
          assert f[4 * k..4 * k + 4] == Flatten(bs[1..])[4 * (k - 1)..4 * (k - 1) + 4];
        }
      }
    }
  }

  /** The bytes HAL_UART_Transmit sends for `(uint8_t*) s, sizeof(s)` with `s` a `const char *`. */
  function SizeofBytes(s: CharPtr): (b: seq<Byte>)
    requires PointerSize <= |s.target|
    ensures |b| == PointerSize
    ensures forall i :: 0 <= i < PointerSize ==> b[i] == CharByte(s.target[i])
  {
    Bytes(s.target)[..PointerSize]
  }

  /**
   * PROCESS_GET_CMD as written: each of the ten text blocks is sent with
   * length `sizeof` of a `const char *`, so only its first four characters go out.
   */
  function GetReply(rx: seq<Byte>, tx: seq<Byte>): (r: Reply)
    ensures r.calls == [] && r.rx == rx && r.tx == tx
    ensures |r.sent| == 4 * |GetInfoBlocks|
    ensures forall k :: 0 <= k < |GetInfoBlocks| ==> r.sent[4 * k..4 * k + 4] == SizeofBytes(GetInfoBlocks[k])
  {
    GetInfoBlocksWellFormed();
    var blocks := seq(|GetInfoBlocks|, k requires 0 <= k < |GetInfoBlocks| => SizeofBytes(GetInfoBlocks[k]));
    assert forall k :: 0 <= k < |blocks| ==> blocks[k] == SizeofBytes(GetInfoBlocks[k]);
    FlattenQuads(blocks);
    Reply([], Flatten(blocks), rx, tx)
  }

  /** The as-written reply carries "0xFC" of the ID "0xFC10EA01", and nothing more of it. */
  lemma GetSendsIdPrefixOnly(rx: seq<Byte>, tx: seq<Byte>)
    ensures GetReply(rx, tx).sent[16..20] == Bytes("0xFC")
    ensures |GetReply(rx, tx).sent| == 40
  {
    var b := SizeofBytes(Id);
    assert GetInfoBlocks[4] == Id;
    assert b == Bytes(Id.target)[..4];
  }

  /** The evidently intended GET reply: every text block in full. */
  function GetReplyFixed(rx: seq<Byte>, tx: seq<Byte>): (r: Reply)
    ensures r.calls == [] && r.rx == rx && r.tx == tx
    ensures r.sent == Flatten(FullBlocks())
  {
    Reply([], Flatten(FullBlocks()), rx, tx)
  }

  /** The concatenation splits at any block: earlier blocks, then block k whole, then the rest. */
  lemma {:induction false} FlattenSplit(bs: seq<seq<Byte>>, k: nat)
    requires k < |bs|
    ensures Flatten(bs) == Flatten(bs[..k]) + bs[k] + Flatten(bs[k + 1..])
  {
    if k == 0 {
      assert bs[..0] == [];
      assert bs[1..] == bs[k + 1..];
    } else {
      FlattenSplit(bs[1..], k - 1);
      assert bs[1..][..k - 1] == bs[1..k];
      assert bs[1..][k - 1 + 1..] == bs[k + 1..];
      assert bs[..k][0] == bs[0] && bs[..k][1..] == bs[1..k];
    }
  }

  /** The text blocks as the evidently intended GET reply sends them. */
  function FullBlocks(): (bs: seq<seq<Byte>>)
    ensures |bs| == |GetInfoBlocks|
    ensures forall k :: 0 <= k < |bs| ==> bs[k] == Bytes(GetInfoBlocks[k].target)
  {
    seq(|GetInfoBlocks|, k requires 0 <= k < |GetInfoBlocks| => Bytes(GetInfoBlocks[k].target))
  }

  /**
   * The intended reply carries every text block whole and in order: block k
   * comes right after the blocks before it, and the as-written reply's four
   * bytes for block k are the start of it.
   */
  lemma GetFixedCarriesEveryBlock(rx: seq<Byte>, tx: seq<Byte>, k: nat)
    requires k < |GetInfoBlocks|
    ensures GetReplyFixed(rx, tx).sent
            == Flatten(FullBlocks()[..k]) + Bytes(GetInfoBlocks[k].target) + Flatten(FullBlocks()[k + 1..])
    ensures GetReply(rx, tx).sent[4 * k..4 * k + 4] <= Bytes(GetInfoBlocks[k].target)
  {
    FlattenSplit(FullBlocks(), k);
    GetInfoBlocksWellFormed();
  }

  // ---------------------------------------------------------------------------
  // Erase, copy, transfer
  // ---------------------------------------------------------------------------

  /**
   * The reply of both erase handlers: ACK when SectorError is 0xFFFFFFFF,
   * otherwise NACK with its code and then the low byte of SectorError.
   */
  function EraseReply(call: HalCall, rx: seq<Byte>, tx: seq<Byte>, hal: Hal): (r: Reply)
    requires |rx| >= 1 && |tx| >= 1
    ensures r.calls == [call]
    ensures ReplyStatus(r.sent) == Some(hal.sectorError == Erased)
    ensures hal.sectorError == Erased ==> r.sent == [AckMsg] && r.rx == rx && r.tx == tx[0 := AckMsg]
    ensures hal.sectorError != Erased ==>
              && r.sent == [NackMsg, NackCode(hal.error), (hal.sectorError & 0xFF) as Byte]
              && r.rx == rx[0 := NackMsg] && r.tx == tx[0 := NackCode(hal.error)]
  {
    if hal.sectorError != Erased then
      var n := SendNack([call], rx, tx, hal.error);
      Reply(n.calls, n.sent + Le32Bytes(hal.sectorError)[..1], n.rx, n.tx)
    else
      SendAck([call], rx, tx)
  }

  /** PROCESS_FLASH_ERASE_CMD: sector from byte 1, count from byte 2, bank 1. */
  function EraseFrameReply(rx: seq<Byte>, tx: seq<Byte>, hal: Hal): (r: Reply)
    requires |rx| >= RxMin && |tx| >= 1
    ensures r.calls == [EraseCall(rx[SectorOffset] as Word, rx[SectorOffset + 1] as Word)]
    ensures ReplyStatus(r.sent) == Some(hal.sectorError == Erased)
  {
    EraseReply(EraseCall(rx[SectorOffset] as Word, rx[SectorOffset + 1] as Word), rx, tx, hal)
  }

  /** PROCESS_FLASH_MASS_ERASE_CMD: a mass erase of bank 1, answered like a sector erase. */
  function MassEraseReply(rx: seq<Byte>, tx: seq<Byte>, hal: Hal): (r: Reply)
    requires |rx| >= 1 && |tx| >= 1
    ensures r.calls == [MassEraseCall]
    ensures ReplyStatus(r.sent) == Some(hal.sectorError == Erased)
  {
    EraseReply(MassEraseCall, rx, tx, hal)
  }

  /** The answers to BOOT_CPY_IMAGE's program calls: every HAL call after its unlock. */
  function ProgramAnswers(hal: Hal): (program: nat -> BootCopy.HalResult)
    ensures forall i: nat :: program(i) == hal.answer(i + 1)
  {
    (i: nat) => hal.answer(i + 1)
  }

  /**
   * What BOOT_CPY_IMAGE returns, as a `uint32_t`: the code of a failed
   * unlock, else the result of its copy loop, where an unassigned return
   * value is whatever the stack slot holds. This is the result
   * BootCopy.CopyImage computes.
   */
  function CopyReturn(src: Word, dest: Word, size: Word, hal: Hal): Word {
    var r :=
      if hal.answer(0).HalError? then BootCopy.Code(hal.answer(0).code)
      else BootCopy.Run(BootCopy.Start(hal.mem), src, dest, size as nat, ProgramAnswers(hal)).result;
    match r
    case Code(v) => v
    case Unassigned => hal.junk
  }

  /**
   * PROCESS_FLASH_CPY_CMD as written: src from bytes 1-4, dest from bytes
   * 5-8, size from bytes 8-11, ACK when BOOT_CPY_IMAGE returns 0.
   */
  function CpyReply(rx: seq<Byte>, tx: seq<Byte>, hal: Hal): (r: Reply)
    requires |rx| >= RxMin && |tx| >= 1
    ensures r.calls == [CopyCall(Field(rx, AddressOffset), Field(rx, DataOffset), Field(rx, SizeOffset))]
    ensures var c := r.calls[0];
            ReplyStatus(r.sent) == Some(CopyReturn(c.src, c.dest, c.size, hal) == 0)
    ensures var c := r.calls[0];
            if CopyReturn(c.src, c.dest, c.size, hal) == 0 then r.sent == [AckMsg] && r.rx == rx
            else r.sent == [NackMsg, NackCode(hal.error)] && r.rx == rx[0 := NackMsg]
  {
    var src := Field(rx, AddressOffset);
    var dest := Field(rx, DataOffset);
    var size := Field(rx, SizeOffset);
    AckOrNack([CopyCall(src, dest, size)], CopyReturn(src, dest, size, hal) == 0, rx, tx, hal.error)
  }

  /** PROCESS_TRANSFER_CNTRL_CMD: the image address from bytes 1-4, and no reply at all. */
  function TransferReply(rx: seq<Byte>, tx: seq<Byte>): (r: Reply)
    requires |rx| >= RxMin
    ensures r.calls == [TransferCall(Field(rx, AddressOffset))]
    ensures r.sent == [] && r.rx == rx && r.tx == tx
  {
    Reply([TransferCall(Field(rx, AddressOffset))], [], rx, tx)
  }

  /**
   * A TRANSFER frame carrying `address` hands exactly that address to
   * BOOT_TRANSFER_CNTRL, which jumps to the image there when the image's
   * stack-pointer word passes its test; otherwise the handler returns and the
   * host gets no reply at all.
   */
  lemma TransferHandsOff(address: Word, pad: seq<Byte>, tx: seq<Byte>, mem: Mem, memrmp: Word)
    requires 5 + |pad| >= RxMin
    ensures var rx := [TransferCntrlCmd] + Le32Bytes(address) + pad;
            var r := TransferReply(rx, tx);
            && r.calls == [TransferCall(address)]
            && r.sent == []
            && (BootCntrl.TransferControl(mem, r.calls[0].address, memrmp).Handoff?
                <==> BootCntrl.StackPointerAccepted(mem(address)))
            && (BootCntrl.TransferControl(mem, r.calls[0].address, memrmp).Handoff? ==>
                  BootCntrl.TransferControl(mem, r.calls[0].address, memrmp).entry == mem(address + 4))
  {
    var rx := [TransferCntrlCmd] + Le32Bytes(address) + pad;
    LoadOfLe32Bytes(address);
    LoadLe32Local(rx, Le32Bytes(address), AddressOffset, 0);
  }

  /** The COPY frame the handler's offsets evidently intend: three consecutive words after the opcode. */
  function CopyFrame(src: Word, dest: Word, size: Word): (f: seq<Byte>)
    ensures |f| == 13 && f[0] == FlashCpyCmd
  {
    [FlashCpyCmd] + Le32Bytes(src) + Le32Bytes(dest) + Le32Bytes(size)
  }

  /** The size field of a COPY frame at the evidently intended offset. */
  const SizeOffsetFixed: nat := 9

  /**
   * As written, the size field starts inside the dest field: for a frame
   * carrying dest 0x08004000 and size 16, the handler decodes a size whose
   * low byte is the top byte of dest, 0x08.
   */
  lemma CopySizeOverlapsDest()
    ensures var f := CopyFrame(0x2000_0000, 0x0800_4000, 16);
            Field(f, DataOffset) == 0x0800_4000 && Field(f, SizeOffset) == 0x0000_1008
  {
  }

  /** With the size at byte 9 a COPY frame decodes to the three words it was built from. */
  lemma CopyFrameRoundTrip(src: Word, dest: Word, size: Word)
    ensures var f := CopyFrame(src, dest, size);
            Field(f, AddressOffset) == src && Field(f, DataOffset) == dest && Field(f, SizeOffsetFixed) == size
  {
    var f := CopyFrame(src, dest, size);
    LoadOfLe32Bytes(src);
    LoadOfLe32Bytes(dest);
    LoadOfLe32Bytes(size);
    LoadLe32Local(f, Le32Bytes(src), AddressOffset, 0);
    LoadLe32Local(f, Le32Bytes(dest), DataOffset, 0);
    LoadLe32Local(f, Le32Bytes(size), SizeOffsetFixed, 0);
  }

  /** PROCESS_FLASH_CPY_CMD with the size decoded from byte 9. */
  function CpyReplyFixed(rx: seq<Byte>, tx: seq<Byte>, hal: Hal): (r: Reply)
    requires |rx| >= RxMin && |tx| >= 1
    ensures r.calls == [CopyCall(Field(rx, AddressOffset), Field(rx, DataOffset), Field(rx, SizeOffsetFixed))]
    ensures var c := r.calls[0];
            ReplyStatus(r.sent) == Some(CopyReturn(c.src, c.dest, c.size, hal) == 0)
    ensures var c := r.calls[0];
            if CopyReturn(c.src, c.dest, c.size, hal) == 0 then r.sent == [AckMsg] && r.rx == rx
            else r.sent == [NackMsg, NackCode(hal.error)] && r.rx == rx[0 := NackMsg]
  {
    var src := Field(rx, AddressOffset);
    var dest := Field(rx, DataOffset);
    var size := Field(rx, SizeOffsetFixed);
    AckOrNack([CopyCall(src, dest, size)], CopyReturn(src, dest, size, hal) == 0, rx, tx, hal.error)
  }

  /** A COPY frame, padded out to the buffer, makes the fixed handler copy exactly what was asked. */
  lemma CopyFixedDecodesFrame(src: Word, dest: Word, size: Word, pad: seq<Byte>, tx: seq<Byte>, hal: Hal)
    requires |pad| >= RxMin - 13 && |tx| >= 1
    ensures CpyReplyFixed(CopyFrame(src, dest, size) + pad, tx, hal).calls == [CopyCall(src, dest, size)]
  {
    var f := CopyFrame(src, dest, size);
    CopyFrameRoundTrip(src, dest, size);
    LoadLe32Local(f + pad, f, AddressOffset, AddressOffset);
    LoadLe32Local(f + pad, f, DataOffset, DataOffset);
    LoadLe32Local(f + pad, f, SizeOffsetFixed, SizeOffsetFixed);
  }

  /**
   * A copy of one word that fails once and then succeeds programs the word,
   * yet the host is told NACK: the copy loop returns the code of the retried
   * failure, 2, even with the size field decoded where it belongs.
   */
  lemma CopyNackedAfterRetry(src: Word, dest: Word, pad: seq<Byte>, tx: seq<Byte>, hal: Hal)
    requires |pad| >= RxMin - 13 && |tx| >= 1
    requires hal.answer(0) == BootCopy.HalOk && hal.answer(1) == BootCopy.HalError(2) && hal.answer(2) == BootCopy.HalOk
    ensures var c := BootCopy.Run(BootCopy.Start(hal.mem), src, dest, 4, ProgramAnswers(hal));
            c.exit == BootCopy.Finished && c.mem(dest) == Programmed(hal.mem(dest), hal.mem(src))
    ensures var r := CpyReplyFixed(CopyFrame(src, dest, 4) + pad, tx, hal);
            r.calls == [CopyCall(src, dest, 4)] && r.sent == [NackMsg, NackCode(hal.error)]
  {
    BootCopy.StaleResultAfterRetry(hal.mem, src, dest, ProgramAnswers(hal));
    CopyFixedDecodesFrame(src, dest, 4, pad, tx, hal);
    assert CopyReturn(src, dest, 4, hal) == 2;
  }

  // ---------------------------------------------------------------------------
  // PROCESS_INIT and dispatch
  // ---------------------------------------------------------------------------

  /**
   * The opcode each handler is written for: the left-hand side of its
   * assignment in PROCESS_INIT. The option-byte lock handler is defined in
   * the source under the name of the unlock handler; by its body
   * (HAL_FLASH_OB_Lock) it is the lock handler, assigned at OB_LOCK_CMD.
   */
  function Opcode(h: Handler): (op: Byte)
    ensures op in LiveOpcodes
  {
    match h
    case ProcessGet => GetCmd
    case ProcessFlashUnlock => FlashUnlockCmd
    case ProcessFlashLock => FlashLockCmd
    case ProcessFlashProg => FlashProgCmd
    case ProcessFlashRead => FlashReadCmd
    case ProcessFlashErase => FlashEraseCmd
    case ProcessFlashMassErase => FlashMassEraseCmd
    case ProcessFlashCpy => FlashCpyCmd
    case ProcessTransferCntrl => TransferCntrlCmd
    case ProcessObUnlock => ObUnlockCmd
    case ProcessObLock => ObLockCmd
    case ProcessObRead => ObReadCmd
    case ProcessWrProtect => WrProtectCmd
    case ProcessWrUnprotect => WrUnprotectCmd
  }

  /** Process_Handlers after PROCESS_INIT: the array of handlers, indexed by opcode. */
  function ProcessInit(): (table: seq<Handler>)
    ensures |table| == |LiveOpcodes|
  {
    [ ProcessGet, ProcessFlashUnlock, ProcessFlashLock, ProcessFlashProg, ProcessFlashRead,
      ProcessFlashErase, ProcessFlashMassErase, ProcessFlashCpy, ProcessTransferCntrl,
      ProcessObUnlock, ProcessObLock, ProcessObRead, ProcessWrProtect, ProcessWrUnprotect ]
  }

  /**
   * Every handler sits at the index of its own opcode, and every entry of
   * the array is the handler written for that index, so the table is a
   * bijection between the live opcodes and the handlers.
   */
  lemma ProcessInitTable()
    ensures forall h: Handler :: ProcessInit()[Opcode(h) as int] == h
    ensures forall i :: 0 <= i < |ProcessInit()| ==> Opcode(ProcessInit()[i]) as int == i
  {
    LiveOpcodesAreTableIndices();
  }

  /** Running one handler on the current buffers. */
  function Handle(h: Handler, rx: seq<Byte>, tx: seq<Byte>, hal: Hal): (r: Reply)
    requires |rx| >= RxMin && |tx| >= TxMin
    ensures h != ProcessTransferCntrl ==> |r.sent| > 0
    ensures |r.calls| <= BlockSize
  {
    match h
    case ProcessGet => GetReply(rx, tx)
    case ProcessFlashUnlock => SingleCallReply(UnlockCall, rx, tx, hal)
    case ProcessFlashLock => SingleCallReply(LockCall, rx, tx, hal)
    case ProcessFlashProg => ProgReply(rx, tx, hal)
    case ProcessFlashRead => ReadReply(rx, tx, hal)
    case ProcessFlashErase => EraseFrameReply(rx, tx, hal)
    case ProcessFlashMassErase => MassEraseReply(rx, tx, hal)
    case ProcessFlashCpy => CpyReply(rx, tx, hal)
    case ProcessTransferCntrl => TransferReply(rx, tx)
    case ProcessObUnlock => SingleCallReply(ObUnlockCall, rx, tx, hal)
    case ProcessObLock => SingleCallReply(ObLockCall, rx, tx, hal)
    case ProcessObRead => ObReadReply(rx, tx, hal)
    case ProcessWrProtect => SingleCallReply(ObProgramCall(true, WrpMaskArg(rx)), rx, tx, hal)
    case ProcessWrUnprotect => SingleCallReply(ObProgramCall(false, WrpMaskArg(rx)), rx, tx, hal)
  }

  /**
   * One received frame: the handler installed for its first byte runs. The
   * receive loop calls `Process_Handlers[RxBuffer[0]]` without a guard, so a
   * reserved opcode calls an empty slot and a larger byte reads past the
   * table; `None` stands for that call, whose effect the model leaves open.
   */
  function Dispatch(rx: seq<Byte>, tx: seq<Byte>, hal: Hal): (r: Option<Reply>)
    requires |rx| >= RxMin && |tx| >= TxMin
    ensures r.Some? <==> rx[0] in LiveOpcodes
    ensures rx[0] in ReservedOpcodes ==> r.None?
    ensures forall h: Handler :: Opcode(h) == rx[0] ==> r == Some(Handle(h, rx, tx, hal))
  {
    var op := rx[0];
    TableSlot(op);
    TableHandler(op);
    if op as int < |ProcessInit()| then Some(Handle(ProcessInit()[op as int], rx, tx, hal)) else None
  }

  /** A byte indexes the handler table exactly when it is a live opcode, and never when reserved. */
  lemma TableSlot(op: Byte)
    ensures op as int < |ProcessInit()| <==> op in LiveOpcodes
    ensures op in ReservedOpcodes ==> op as int >= |ProcessInit()|
  {
    LiveOpcodesAreTableIndices();
    ReservedOpcodesAreFree();
    if op as int < |ProcessInit()| {
      assert LiveOpcodes[op as int] == op;
    }
  }

  /** The slot of a handler's opcode holds that handler. */
  lemma TableHandler(op: Byte)
    ensures forall h: Handler :: Opcode(h) == op ==> op as int < |ProcessInit()| && ProcessInit()[op as int] == h
  {
    ProcessInitTable();
  }

  /**
   * The status handlers answer exactly once, with ACK precisely when their HAL
   * call succeeded, and a host reading the first reply byte sees that.
   */
  lemma StatusRepliesAgree(h: Handler, rx: seq<Byte>, tx: seq<Byte>, hal: Hal)
    requires |rx| >= RxMin && |tx| >= TxMin
    requires h in {ProcessFlashUnlock, ProcessFlashLock, ProcessObUnlock, ProcessObLock,
                   ProcessWrProtect, ProcessWrUnprotect}
    ensures var r := Handle(h, rx, tx, hal);
            |r.calls| == 1 && ReplyStatus(r.sent) == Some(hal.answer(0) == BootCopy.HalOk)
            && (hal.answer(0) == BootCopy.HalOk ==> |r.sent| == 1)
            && (hal.answer(0).HalError? ==> |r.sent| == 2)
  {
  }

  /** An unlock frame whose HAL_FLASH_Unlock succeeds is answered with the single byte 0x41. */
  lemma UnlockExample(rx: seq<Byte>, tx: seq<Byte>, hal: Hal)
    requires |rx| >= RxMin && |tx| >= TxMin
    requires rx[0] == FlashUnlockCmd && hal.answer(0) == BootCopy.HalOk
    ensures Dispatch(rx, tx, hal).Some?
    ensures Dispatch(rx, tx, hal).value.calls == [UnlockCall]
    ensures Dispatch(rx, tx, hal).value.sent == [AckMsg]
  {
    assert Opcode(ProcessFlashUnlock) == rx[0];
  }

  /**
   * Erasing 2 sectors from sector 3 that fails on write protection at sector
   * 3 is answered with 0x4E, 0xE4, 0x03.
   */
  lemma EraseExample(rx: seq<Byte>, tx: seq<Byte>, hal: Hal)
    requires |rx| >= RxMin && |tx| >= TxMin
    requires rx[0] == FlashEraseCmd && rx[1] == 3 && rx[2] == 2
    requires hal.error == HalFlashErrorWrp && hal.sectorError == 3
    ensures Dispatch(rx, tx, hal).Some?
    ensures Dispatch(rx, tx, hal).value.calls == [EraseCall(3, 2)]
    ensures Dispatch(rx, tx, hal).value.sent == [NackMsg, WrpErrMsg, 0x03]
  {
    assert Opcode(ProcessFlashErase) == rx[0];
    assert NackCode(hal.error) == WrpErrMsg;
    assert Le32Bytes(hal.sectorError)[0] == 0x03;
  }
}
