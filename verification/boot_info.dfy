/**
 * The wire vocabulary of the bootloader (Core/Inc/BOOT_Info.h): command
 * opcodes, the ACK/NACK bytes, the error-code bytes, and the text blocks the
 * GET command sends.
 */
module BootInfo {
  import opened Machine

  // Live command opcodes.
  const GetCmd: Byte := 0x00
  const FlashUnlockCmd: Byte := 0x01
  const FlashLockCmd: Byte := 0x02
  const FlashProgCmd: Byte := 0x03
  const FlashReadCmd: Byte := 0x04
  const FlashEraseCmd: Byte := 0x05
  const FlashMassEraseCmd: Byte := 0x06
  const FlashCpyCmd: Byte := 0x07
  const TransferCntrlCmd: Byte := 0x08
  const ObUnlockCmd: Byte := 0x09
  const ObLockCmd: Byte := 0x0A
  const ObReadCmd: Byte := 0x0B
  const WrProtectCmd: Byte := 0x0C
  const WrUnprotectCmd: Byte := 0x0D

  // Opcodes reserved for future versions.
  const RdProtectCmd: Byte := 0x0E
  const RdUnprotectCmd: Byte := 0x0F
  const CrcCheckCmd: Byte := 0x10

  /** The live opcodes in declaration order. */
  const LiveOpcodes: seq<Byte> :=
    [ GetCmd, FlashUnlockCmd, FlashLockCmd, FlashProgCmd, FlashReadCmd,
      FlashEraseCmd, FlashMassEraseCmd, FlashCpyCmd, TransferCntrlCmd,
      ObUnlockCmd, ObLockCmd, ObReadCmd, WrProtectCmd, WrUnprotectCmd ]

  const ReservedOpcodes: seq<Byte> := [RdProtectCmd, RdUnprotectCmd, CrcCheckCmd]

  // Reply bytes.
  const AckMsg: Byte := 0x41
  const NackMsg: Byte := 0x4E

  // Error-code bytes sent after a NACK.
  const PgsErrMsg: Byte := 0xE1
  const PgpErrMsg: Byte := 0xE2
  const PgaErrMsg: Byte := 0xE3
  const WrpErrMsg: Byte := 0xE4
  const RdprErrMsg: Byte := 0xE5
  const OpErrMsg: Byte := 0xE6

  const ErrorCodes: seq<Byte> := [PgsErrMsg, PgpErrMsg, PgaErrMsg, WrpErrMsg, RdprErrMsg, OpErrMsg]

  /**
   * The live opcodes are exactly 0x00..0x0D in order, so each one is a valid
   * and distinct index into a 14-slot handler table.
   */
  lemma LiveOpcodesAreTableIndices()
    ensures |LiveOpcodes| == 14
    ensures forall i :: 0 <= i < |LiveOpcodes| ==> LiveOpcodes[i] as int == i
    ensures forall i, j :: 0 <= i < j < |LiveOpcodes| ==> LiveOpcodes[i] != LiveOpcodes[j]
  {
  }

  /** No reserved opcode collides with a live one. */
  lemma ReservedOpcodesAreFree()
    ensures forall r :: r in ReservedOpcodes ==> r !in LiveOpcodes && 14 <= r as int <= 16
  {
  }

  /**
   * The six error codes are pairwise distinct, and neither ACK nor NACK can be
   * mistaken for an error code or for each other.
   */
  lemma ReplyBytesDistinct()
    ensures forall i, j :: 0 <= i < j < |ErrorCodes| ==> ErrorCodes[i] != ErrorCodes[j]
    ensures AckMsg != NackMsg
    ensures AckMsg !in ErrorCodes && NackMsg !in ErrorCodes
    ensures forall i :: 0 <= i < |ErrorCodes| ==> ErrorCodes[i] as int == 0xE1 + i
  {
  }

  /**
   * A `const char *` object: the header declares every banner string as a
   * pointer to a literal, not as an array, so `sizeof` of it is the size of a
   * pointer on the target, not the length of the text.
   */
  datatype CharPtr = CharPtr(target: string)

  /** `sizeof(const char *)` on the Cortex-M4 target. */
  const PointerSize: nat := 4

  const Id := CharPtr("0xFC10EA01  \n")
  const Version := CharPtr("v1.0   \n")
  const Author := CharPtr("Mohammed Khaled \n")

  const SepartLine := CharPtr("------------------------------------------------\n")
  const InfoHead := CharPtr("|*********     BootLoader Info    *************|\n")
  const IdLine := CharPtr("| BL ID           :    ")
  const VerLine := CharPtr("| BL Version      :    ")
  const AuthLine := CharPtr("| BL Author       :    ")

  /** The text blocks of the GET reply, in transmission order. */
  const GetInfoBlocks: seq<CharPtr> :=
    [ SepartLine, InfoHead, SepartLine, IdLine, Id, VerLine, Version,
      AuthLine, Author, SepartLine ]

  /** A character as the C compiler stores it in a literal: its code reduced to 8 bits. */
  function CharByte(c: char): (b: Byte)
    ensures c as int < 256 ==> b as int == c as int
  {
    var v := c as int % 256;
    assert 0 <= v < 256;
    v as Byte
  }

  /**
   * The bytes of a string literal, one per character; for a literal of 8-bit
   * characters (every one here) each byte is the character's code.
   */
  function Bytes(s: string): (b: seq<Byte>)
    ensures |b| == |s|
    ensures forall i :: 0 <= i < |s| ==> b[i] == CharByte(s[i])
    ensures (forall i :: 0 <= i < |s| ==> s[i] as int < 256) ==>
              forall i :: 0 <= i < |s| ==> b[i] as int == s[i] as int
  {
    seq(|s|, i requires 0 <= i < |s| => CharByte(s[i]))
  }

  /**
   * Every GET text block is at least a pointer long, so sending
   * `sizeof(block)` bytes from it stays inside the literal.
   */
  lemma GetInfoBlocksWellFormed()
    ensures |GetInfoBlocks| == 10
    ensures forall k :: 0 <= k < |GetInfoBlocks| ==> PointerSize <= |GetInfoBlocks[k].target|
  {
  }
}
