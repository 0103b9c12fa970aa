/**
 * The host flasher (flasher.py): its command and error tables, the cutting
 * of a hex image into 16-byte blocks padded with 0xFF, the 21-byte program
 * frame, the single-byte unlock frame, and the reply test that decides
 * whether `writeImage` goes on to the next block. Serial I/O is a reply
 * oracle: `reply(k)` is what `serial.read(1)` returns after frame k.
 */
module Flasher {
  import opened Machine
  import opened BootInfo
  import opened WordArith
  import BootProcess

  /** The COMMANDS table, name to opcode, in its order of definition. */
  const CommandNames: seq<string> :=
    [ "GET", "FLACH_UNLOCK", "FLASH_LOCK", "FLASH_PROGRAM", "FLASH_READ", "FLASH_ERASE",
      "FLASH_MASS_ERASE", "FLASH_COPY", "TRANSFER_CTRL", "OB_UNLOCK", "OB_LOCK", "OB_READ",
      "WR_PROTECT", "WR_UNPROTECT" ]

  const Commands: map<string, Byte> := map[
    "GET" := 0x00,
    "FLACH_UNLOCK" := 0x01,
    "FLASH_LOCK" := 0x02,
    "FLASH_PROGRAM" := 0x03,
    "FLASH_READ" := 0x04,
    "FLASH_ERASE" := 0x05,
    "FLASH_MASS_ERASE" := 0x06,
    "FLASH_COPY" := 0x07,
    "TRANSFER_CTRL" := 0x08,
    "OB_UNLOCK" := 0x09,
    "OB_LOCK" := 0x0A,
    "OB_READ" := 0x0B,
    "WR_PROTECT" := 0x0C,
    "WR_UNPROTECT" := 0x0D
  ]

  /** The host's ACK and NACK, Python integers. */
  const Ack: int := 0x41
  const Nack: int := 0x4E

  /** The keys of the ERRORS table, in its order of definition. */
  const ErrorKeys: seq<int> := [0xE1, 0xE2, 0xE3, 0xE4, 0xE5, 0xE6]

  /** The ERRORS table, keyed by the Python integer of the code byte. */
  const Errors: map<int, string> := map[
    0xE1 := " > Programming Sequence error.",
    0xE2 := " > Programming Parallelism error.",
    0xE3 := " > Programming Alignment error.",
    0xE4 := " > Write protection error.",
    0xE5 := " > Read Protection error.",
    0xE6 := " > Operation Error."
  ]

  /** The command table has exactly the listed names, and the key `lockFlash` uses is not one of them. */
  lemma CommandNamesAreKeys()
    ensures Commands.Keys == set n | n in CommandNames
    ensures "FLACH_LOCK" !in Commands
  {
  }

  /** The host's command table agrees with the device's opcodes: the i-th name maps to the i-th live opcode. */
  lemma CommandsAgree()
    ensures forall i :: 0 <= i < |CommandNames| ==> CommandNames[i] in Commands && Commands[CommandNames[i]] == LiveOpcodes[i]
  {
    LiveOpcodesAreTableIndices();
  }

  /**
   * The host's reply vocabulary agrees with the device's: ACK and NACK are the
   * device's bytes, and the error keys are exactly the device's error codes,
   * in the same order.
   */
  lemma RepliesAgree()
    ensures Ack == AckMsg as int && Nack == NackMsg as int
    ensures Errors.Keys == set k | k in ErrorKeys
    ensures |ErrorKeys| == |ErrorCodes| && forall i :: 0 <= i < |ErrorKeys| ==> ErrorKeys[i] == ErrorCodes[i] as int
  {
  }

  // ---------------------------------------------------------------------------
  // Blocks of the hex image
  // ---------------------------------------------------------------------------

  /** The bytes of a 16-byte block. */
  const BlockBytes: nat := 16

  /** The padding for addresses the hex file does not define: the erased value. */
  const Pad: Byte := 0xFF

  /** One block as `writeImage` builds it: its first address and its 16 data bytes. */
  datatype Block = Block(address: int, data: seq<Byte>)

  /** The byte `writeImage` puts in a block for `address`: the file's byte, or the padding. */
  function ByteAt(content: map<int, Byte>, address: int): Byte {
    if address in content then content[address] else Pad
  }

  /** The number of blocks that cover [minAddr, maxAddr]: ceil((max - min + 1) / 16). */
  function BlockCount(minAddr: int, maxAddr: int): (n: nat)
    ensures maxAddr < minAddr ==> n == 0
    ensures minAddr <= maxAddr ==> minAddr + BlockBytes * (n - 1) <= maxAddr < minAddr + BlockBytes * n
  {
    if maxAddr < minAddr then 0 else (maxAddr - minAddr) / BlockBytes + 1
  }

  /** The contract of the blocks from `minAddr` on: consecutive, 16 bytes each, file bytes or padding. */
  ghost predicate Tiled(blocks: seq<Block>, content: map<int, Byte>, minAddr: int) {
    forall k :: 0 <= k < |blocks| ==>
      blocks[k].address == minAddr + BlockBytes * k
      && |blocks[k].data| == BlockBytes
      && forall i :: 0 <= i < BlockBytes ==> blocks[k].data[i] == ByteAt(content, minAddr + BlockBytes * k + i)
  }

  /**
   * The block loop of `writeImage`: from `minaddr`, while the current address
   * is at most `maxaddr`, take the next 16 addresses, each with the file's
   * byte or 0xFF.
   */
  method CutBlocks(content: map<int, Byte>, minAddr: int, maxAddr: int) returns (blocks: seq<Block>)
    ensures |blocks| == BlockCount(minAddr, maxAddr)
    ensures Tiled(blocks, content, minAddr)
  {
    blocks := [];
    var current := minAddr;
    while current <= maxAddr
      invariant current == minAddr + BlockBytes * |blocks|
      invariant maxAddr < minAddr ==> blocks == []
      invariant minAddr <= maxAddr ==> current <= maxAddr + BlockBytes
      invariant |blocks| > 0 ==> minAddr + BlockBytes * (|blocks| - 1) <= maxAddr
      invariant Tiled(blocks, content, minAddr)
      decreases maxAddr - current
    {
      var data: seq<Byte> := [];
      var blockAddress := current;
      var i := 0;
      while i < BlockBytes
        invariant 0 <= i <= BlockBytes && |data| == i && current == blockAddress + i
        invariant forall j :: 0 <= j < i ==> data[j] == ByteAt(content, blockAddress + j)
      {
        if current in content {
          data := data + [content[current]];
        } else {
          data := data + [Pad];
        }
        current := current + 1;
        i := i + 1;
      }
      blocks := blocks + [Block(blockAddress, data)];
    }
  }

  /**
   * The blocks cover every address of [minAddr, maxAddr] exactly once:
   * address a is byte (a - min) % 16 of block (a - min) / 16, no other block
   * position holds it, and that byte is the file's byte at a, or 0xFF.
   */
  lemma {:induction false} EveryAddressOnce(blocks: seq<Block>, content: map<int, Byte>, minAddr: int, maxAddr: int, a: int)
    requires |blocks| == BlockCount(minAddr, maxAddr) && Tiled(blocks, content, minAddr)
    requires minAddr <= a <= maxAddr
    ensures var k, i := (a - minAddr) / BlockBytes, (a - minAddr) % BlockBytes;
            k < |blocks| && blocks[k].address + i == a && blocks[k].data[i] == ByteAt(content, a)
    ensures forall k :: 0 <= k < |blocks| && blocks[k].address <= a < blocks[k].address + BlockBytes ==>
              k == (a - minAddr) / BlockBytes
  {
    var k, i := (a - minAddr) / BlockBytes, (a - minAddr) % BlockBytes;
    assert a == minAddr + BlockBytes * k + i;
    forall k' | 0 <= k' < |blocks| && blocks[k'].address <= a < blocks[k'].address + BlockBytes
      ensures k' == k
    {
      assert 0 <= a - minAddr - BlockBytes * k' < BlockBytes;
    }
  }

  // ---------------------------------------------------------------------------
  // Frames
  // ---------------------------------------------------------------------------

  /** `struct.pack("I", n)` on a little-endian host: the four base-256 digits of n, lowest first. */
  function PackU32(n: int): (b: seq<Byte>)
    requires 0 <= n < 0x1_0000_0000
    ensures |b| == 4
  {
    Digits(n)
  }

  /** The packed bytes, weighted by powers of 256 from the lowest, sum back to n. */
  lemma PackU32Value(n: int)
    requires 0 <= n < 0x1_0000_0000
    ensures var b := PackU32(n);
            b[0] as int + 0x100 * b[1] as int + 0x1_0000 * b[2] as int + 0x100_0000 * b[3] as int == n
  {
    DigitsValue(n);
  }

  /**
   * The program frame: FLASH_PROGRAM, the packed block address, the 16 data
   * bytes. The address sits at byte 1 and the data at byte 5, where the
   * device decodes them.
   */
  function ProgramFrame(b: Block): (f: seq<Byte>)
    requires 0 <= b.address < 0x1_0000_0000 && |b.data| == BlockBytes
    ensures |f| == BootProcess.ProgFrameSize
    ensures f[0] == Commands["FLASH_PROGRAM"] == FlashProgCmd
    ensures f[BootProcess.AddressOffset..BootProcess.DataOffset] == PackU32(b.address)
    ensures f[BootProcess.DataOffset..] == b.data
  {
    [Commands["FLASH_PROGRAM"]] + PackU32(b.address) + b.data
  }

  /** The frame `unlockFlash` sends. */
  function UnlockFrame(): (f: seq<Byte>)
    ensures f == [FlashUnlockCmd]
  {
    [Commands["FLACH_UNLOCK"]]
  }

  /**
   * The device's decode of a host program frame, with the data argument the
   * handler evidently intends: it programs four words in order at the frame's
   * address and the next three words, and each word's little-endian image is
   * the next four bytes of the block. The address word's image is the packed
   * block address.
   */
  lemma ProgramFrameAgrees(b: Block, tx: seq<Byte>, hal: BootProcess.Hal)
    requires 0 <= b.address < 0x1_0000_0000 && |b.data| == BlockBytes && |tx| >= 1
    ensures var f := ProgramFrame(b);
            var address := BootProcess.Field(f, BootProcess.AddressOffset);
            var r := BootProcess.ProgReplyFixed(f, tx, hal);
            Le32Bytes(address) == PackU32(b.address)
            && forall i :: 0 <= i < |r.calls| ==>
                 r.calls[i].address == BootProcess.WordAddress(address, i)
                 && Le32Bytes(r.calls[i].data) == b.data[4 * i..4 * i + 4]
  {
    var f := ProgramFrame(b);
    var r := BootProcess.ProgReplyFixed(f, tx, hal);
    Le32BytesOfLoad(f, BootProcess.AddressOffset);
    forall i | 0 <= i < |r.calls|
      ensures Le32Bytes(r.calls[i].data) == b.data[4 * i..4 * i + 4]
    {
      ProgramCallAgrees(b, i);
    }
  }

  // The i-th fixed program call of a block's frame carries the i-th four bytes of the block.
  lemma ProgramCallAgrees(b: Block, i: nat)
    requires 0 <= b.address < 0x1_0000_0000 && |b.data| == BlockBytes && i < BootProcess.BlockSize
    ensures Le32Bytes(BootProcess.ProgCallFixed(ProgramFrame(b), i).data) == b.data[4 * i..4 * i + 4]
  {
    var f := ProgramFrame(b);
    var d := f[BootProcess.DataOffset..];
    Le32BytesOfLoad(f, BootProcess.DataOffset + 4 * i);
    assert f[BootProcess.DataOffset + 4 * i..BootProcess.DataOffset + 4 * i + 4] == d[4 * i..4 * i + 4];
  }

  /** The device as written programs only the first byte of each four-byte group of the block. */
  lemma ProgramFrameAsWritten(b: Block, tx: seq<Byte>, hal: BootProcess.Hal)
    requires 0 <= b.address < 0x1_0000_0000 && |b.data| == BlockBytes && |tx| >= 1
    ensures var r := BootProcess.ProgReply(ProgramFrame(b), tx, hal);
            forall i :: 0 <= i < |r.calls| ==> r.calls[i].data == b.data[4 * i] as Word
  {
    var f := ProgramFrame(b);
    assert forall i :: 0 <= i < BootProcess.BlockSize ==> f[BootProcess.DataOffset + 4 * i] == b.data[4 * i];
  }

  /** The unlock frame, whatever follows it in the receive buffer, makes the device call HAL_FLASH_Unlock once. */
  lemma UnlockFrameAgrees(rest: seq<Byte>, tx: seq<Byte>, hal: BootProcess.Hal)
    requires |rest| >= BootProcess.RxMin - 1 && |tx| >= BootProcess.TxMin
    ensures var r := BootProcess.Dispatch(UnlockFrame() + rest, tx, hal);
            r.Some? && r.value.calls == [BootProcess.UnlockCall]
  {
    var rx := UnlockFrame() + rest;
    assert BootProcess.Opcode(BootProcess.ProcessFlashUnlock) == rx[0];
  }

  // ---------------------------------------------------------------------------
  // The reply test of writeImage
  // ---------------------------------------------------------------------------

  /** The Python values the reply test compares: an `int` and a `bytes` object. */
  datatype PyValue = PyInt(i: int) | PyBytes(b: seq<Byte>)

  /** Python 3 `==`: values of different types are never equal, `bytes` compare by content. */
  predicate PyEq(x: PyValue, y: PyValue) {
    match (x, y)
    case (PyInt(a), PyInt(b)) => a == b
    case (PyBytes(a), PyBytes(b)) => a == b
    case _ => false
  }

  /** `ret == ACK` as written: `serial.read(1)` returns `bytes`, `ACK` is an `int`. */
  predicate IsAck(ret: seq<Byte>) {
    PyEq(PyBytes(ret), PyInt(Ack))
  }

  /** The evidently intended test: `ret == bytes([ACK])`. */
  predicate IsAckFixed(ret: seq<Byte>) {
    PyEq(PyBytes(ret), PyBytes([AckMsg]))
  }

  /** The as-written test fails on every reply, even the device's ACK. */
  lemma AckNeverRecognised(ret: seq<Byte>)
    ensures !IsAck(ret)
    ensures IsAckFixed(ret) <==> ret == [AckMsg]
    ensures IsAckFixed(BootProcess.SendAck([], [0], [0]).sent)
  {
  }

  /** What `writeImage` did: the frames it sent and whether it reported success. */
  datatype Written = Written(sent: seq<seq<Byte>>, succeeded: bool)

  /** Whether every block can be framed: 32-bit addresses and 16 bytes each. */
  predicate Frameable(blocks: seq<Block>) {
    forall k :: 0 <= k < |blocks| ==> 0 <= blocks[k].address < 0x1_0000_0000 && |blocks[k].data| == BlockBytes
  }

  /**
   * `writeImage` from block k on, with the reply test `fixed` chooses: send
   * the frame, read one byte, go on if it passes the test, else stop and
   * report failure.
   */
  function Write(blocks: seq<Block>, k: nat, reply: nat -> seq<Byte>, fixed: bool): (w: Written)
    requires k <= |blocks| && Frameable(blocks)
    ensures |w.sent| <= |blocks| - k
    ensures forall j :: 0 <= j < |w.sent| ==> w.sent[j] == ProgramFrame(blocks[k + j])
    decreases |blocks| - k
  {
    if k == |blocks| then Written([], true)
    else
      var frame := ProgramFrame(blocks[k]);
      var ret := reply(k);
      if (if fixed then IsAckFixed(ret) else IsAck(ret)) then
        var rest := Write(blocks, k + 1, reply, fixed);
        Written([frame] + rest.sent, rest.succeeded)
      else Written([frame], false)
  }

  /**
   * As written, `writeImage` sends at most one frame, and reports success
   * only for an image with no blocks at all.
   */
  lemma WriteStopsAfterFirstBlock(blocks: seq<Block>, reply: nat -> seq<Byte>)
    requires Frameable(blocks)
    ensures var w := Write(blocks, 0, reply, false);
            |w.sent| == (if blocks == [] then 0 else 1) && (w.succeeded <==> blocks == [])
  {
    if blocks != [] {
      AckNeverRecognised(reply(0));
    }
  }

  /** Whether the device acknowledged blocks k up to n. */
  predicate AckedFrom(reply: nat -> seq<Byte>, k: nat, n: nat) {
    forall j :: k <= j < n ==> reply(j) == [AckMsg]
  }

  /**
   * A run of n frames from block k, of blocks k up to `last`, with outcome
   * ok: it succeeds exactly when every block was acknowledged, and then it
   * sent them all; otherwise it stopped right after the first frame that
   * was not acknowledged.
   */
  predicate UntilNack(reply: nat -> seq<Byte>, k: nat, last: nat, n: nat, ok: bool) {
    (ok <==> AckedFrom(reply, k, last))
    && (ok ==> n == last - k)
    && (!ok ==> 1 <= n && AckedFrom(reply, k, k + n - 1) && reply(k + n - 1) != [AckMsg])
  }

  /**
   * With the intended test, `writeImage` sends every block in order and
   * succeeds exactly when every frame was acknowledged; otherwise it stops
   * right after the first frame that was not.
   */
  lemma {:induction false} WriteFixedSendsUntilNack(blocks: seq<Block>, k: nat, reply: nat -> seq<Byte>)
    requires k <= |blocks| && Frameable(blocks)
    ensures var w := Write(blocks, k, reply, true);
            UntilNack(reply, k, |blocks|, |w.sent|, w.succeeded)
    decreases |blocks| - k
  {
    if k < |blocks| {
      WriteFixedStep(blocks, k, reply);
      if reply(k) == [AckMsg] {
        WriteFixedSendsUntilNack(blocks, k + 1, reply);
        var w, rest := Write(blocks, k, reply, true), Write(blocks, k + 1, reply, true);
        UntilNackStep(reply, k, |blocks|, |w.sent|, w.succeeded, |rest.sent|, rest.succeeded);
      }
    }
  }

  // An acknowledged block k followed by a run that keeps the promise from k + 1 keeps it from k.
  lemma UntilNackStep(reply: nat -> seq<Byte>, k: nat, last: nat, n: nat, ok: bool, n': nat, ok': bool)
    requires k < last && reply(k) == [AckMsg] && n == 1 + n' && ok == ok'
    requires UntilNack(reply, k + 1, last, n', ok')
    ensures UntilNack(reply, k, last, n, ok)
  {
  }

  /** One step of `writeImage` with the intended test: an ACK goes on to the next block, anything else stops. */
  lemma WriteFixedStep(blocks: seq<Block>, k: nat, reply: nat -> seq<Byte>)
    requires k < |blocks| && Frameable(blocks)
    ensures var w, rest := Write(blocks, k, reply, true), Write(blocks, k + 1, reply, true);
            if reply(k) == [AckMsg] then |w.sent| == 1 + |rest.sent| && w.succeeded == rest.succeeded
            else |w.sent| == 1 && !w.succeeded
  {
    AckNeverRecognised(reply(k));
  }
}
