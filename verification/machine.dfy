/**
 * Machine-level vocabulary shared by every part of the bootloader model:
 * bytes and 32-bit words, an optional value, the word-addressed memory the
 * Cortex-M4 core sees, and the little-endian byte order of its 32-bit loads.
 */
module Machine {

  type Byte = bv8
  type Word = bv32

  /** A `uint32_t` used as a number (a size or a count) rather than as bits. */
  newtype Uint32 = n: int | 0 <= n < 0x1_0000_0000

  datatype Option<+T> = None | Some(value: T)

  /** Value of an erased flash cell (all ones). */
  const Erased: Word := 0xFFFF_FFFF

  /**
   * The memory the core sees, as a total map from the byte address of a
   * 32-bit word to the word stored there (flash, RAM and registers alike).
   */
  type Mem = Word -> Word

  /** Storing a word changes the addressed word and nothing else. */
  function Store(m: Mem, a: Word, w: Word): (m': Mem)
    ensures m'(a) == w
    ensures forall b :: b != a ==> m'(b) == m(b)
  {
    b => if b == a then w else m(b)
  }

  /**
   * Programming a flash word can only clear bits: the word becomes the AND of
   * what it held and the data, and nothing else changes. Setting a bit back
   * to 1 takes an erase.
   */
  function Program(m: Mem, a: Word, w: Word): (m': Mem)
    ensures m'(a) == Programmed(m(a), w)
    ensures forall b :: b != a ==> m'(b) == m(b)
  {
    Store(m, a, Programmed(m(a), w))
  }

  /** The word a flash cell holding `v` holds after `w` is programmed into it. */
  function Programmed(v: Word, w: Word): Word {
    v & w
  }

  /** Programming an erased word leaves exactly the data in it. */
  lemma ProgramErased(w: Word)
    ensures Programmed(Erased, w) == w
  {
  }

  /** Programming the same data a second time changes nothing. */
  lemma ProgramTwice(v: Word, w: Word)
    ensures Programmed(Programmed(v, w), w) == Programmed(v, w)
  {
  }

  /**
   * The 32-bit value a Cortex-M4 reads with `*(uint32_t *)&buf[off]`:
   * the byte at `off` is the least significant one.
   */
  function LoadLe32(bytes: seq<Byte>, off: nat): Word
    requires off + 4 <= |bytes|
  {
    (bytes[off] as Word)
    | ((bytes[off + 1] as Word) << 8)
    | ((bytes[off + 2] as Word) << 16)
    | ((bytes[off + 3] as Word) << 24)
  }

  /** The four bytes a little-endian store of `w` puts in memory, lowest address first. */
  function Le32Bytes(w: Word): (b: seq<Byte>)
    ensures |b| == 4
    ensures b[0] == (w & 0xFF) as Byte
  {
    [ (w & 0xFF) as Byte,
      ((w >> 8) & 0xFF) as Byte,
      ((w >> 16) & 0xFF) as Byte,
      ((w >> 24) & 0xFF) as Byte ]
  }

  /** Loading back the bytes of a store yields the stored word. */
  lemma LoadOfLe32Bytes(w: Word)
    ensures LoadLe32(Le32Bytes(w), 0) == w
  {
  }

  /** Storing a loaded word reproduces the four bytes it was loaded from. */
  lemma Le32BytesOfLoad(bytes: seq<Byte>, off: nat)
    requires off + 4 <= |bytes|
    ensures Le32Bytes(LoadLe32(bytes, off)) == bytes[off..off + 4]
  {
  }

  /** The four bytes a load reads are the bytes a store of the loaded word writes. */
  lemma StoreOfLoad(b: seq<Byte>)
    requires |b| == 4
    ensures Le32Bytes(LoadLe32(b, 0)) == b
  {
    Le32BytesOfLoad(b, 0);
    assert b[0..4] == b;
  }

  /** A load at `off` only depends on the four bytes at `off`. */
  lemma LoadLe32Local(a: seq<Byte>, b: seq<Byte>, offA: nat, offB: nat)
    requires offA + 4 <= |a| && offB + 4 <= |b|
    requires a[offA..offA + 4] == b[offB..offB + 4]
    ensures LoadLe32(a, offA) == LoadLe32(b, offB)
  {
    assert a[offA] == b[offB] && a[offA + 1] == b[offB + 1];
    assert a[offA + 2] == b[offB + 2] && a[offA + 3] == b[offB + 3];
  }
}
