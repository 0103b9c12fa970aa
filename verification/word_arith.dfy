/**
 * `uint32_t` address arithmetic as the core performs it. `At(base, n)` is the
 * address n bytes past `base`, wrapping at 2^32. The distance it covers is the
 * word whose little-endian image is the base-256 digits of n (`WordOf`), so
 * distinct offsets below 2^32 from one base are distinct addresses.
 */
module WordArith {
  import opened Machine

  /** The byte whose value is n. */
  function ByteOf(n: nat): Byte
    requires n < 0x100
  {
    if n == 0 then 0 else ByteOf(n - 1) + 1
  }

  /** `ByteOf(n)` has the value n. */
  lemma {:induction false} ByteOfValue(n: nat)
    requires n < 0x100
    ensures ByteOf(n) as int == n
  {
    if n > 0 {
      ByteOfValue(n - 1);
    }
  }

  /** Below 0xFF, the byte of n + 1 is the byte of n plus one, with no carry out of the byte. */
  lemma ByteOfSucc(n: nat)
    requires n < 0xFF
    ensures ByteOf(n) < 0xFF && ByteOf(n + 1) == ByteOf(n) + 1
  {
    ByteOfValue(n);
  }

  lemma ByteOfMax()
    ensures ByteOf(0xFF) == 0xFF
  {
    ByteOfValue(0xFF);
  }

  /** Base-256 digit k of n, counting from the least significant. */
  function Digit(n: nat, k: nat): (d: nat)
    ensures d < 0x100
  {
    if k == 0 then n % 0x100 else Digit(n / 0x100, k - 1)
  }

  /** The four low base-256 digits of n as bytes, lowest first: `struct.pack("<I", n)` for n below 2^32. */
  function Digits(n: nat): seq<Byte> {
    [ByteOf(Digit(n, 0)), ByteOf(Digit(n, 1)), ByteOf(Digit(n, 2)), ByteOf(Digit(n, 3))]
  }

  /** Below 2^32, the digits weighted by powers of 256 sum back to n. */
  lemma DigitsValue(n: nat)
    requires n < 0x1_0000_0000
    ensures var b := Digits(n);
            b[0] as int + 0x100 * b[1] as int + 0x1_0000 * b[2] as int + 0x100_0000 * b[3] as int == n
  {
    ByteOfValue(Digit(n, 0));
    ByteOfValue(Digit(n, 1));
    ByteOfValue(Digit(n, 2));
    ByteOfValue(Digit(n, 3));
    DigitSum(n);
  }

  lemma DigitSum(n: nat)
    requires n < 0x1_0000_0000
    ensures Digit(n, 0) + 0x100 * Digit(n, 1) + 0x1_0000 * Digit(n, 2) + 0x100_0000 * Digit(n, 3) == n
  {
    assert Digit(n, 1) == n / 0x100 % 0x100;
    assert Digit(n, 2) == n / 0x100 / 0x100 % 0x100;
    assert Digit(n, 3) == n / 0x100 / 0x100 / 0x100 % 0x100;
  }

  /** Distinct numbers below 2^32 have distinct digits. */
  lemma DigitsInjective(a: nat, b: nat)
    requires a < 0x1_0000_0000 && b < 0x1_0000_0000 && Digits(a) == Digits(b)
    ensures a == b
  {
    DigitsValue(a);
    DigitsValue(b);
  }

  /** The word whose little-endian image is the digits of n. */
  function WordOf(n: nat): Word {
    LoadLe32(Digits(n), 0)
  }

  /** Storing `WordOf(n)` writes the digits of n. */
  lemma WordOfDigits(n: nat)
    ensures Le32Bytes(WordOf(n)) == Digits(n)
  {
    StoreOfLoad(Digits(n));
  }

  /** Distinct numbers below 2^32 are distinct words. */
  lemma WordOfInjective(a: nat, b: nat)
    requires a < 0x1_0000_0000 && b < 0x1_0000_0000 && WordOf(a) == WordOf(b)
    ensures a == b
  {
    WordOfDigits(a);
    WordOfDigits(b);
    DigitsInjective(a, b);
  }

  /** The address `offset` bytes past `base`, one byte at a time, each step wrapping as `uint32_t` addition does. */
  function At(base: Word, offset: nat): Word {
    if offset == 0 then base else At(base, offset - 1) + 1
  }

  /** Below 2^32, the distance from `base` to `At(base, o)` is the word of o. */
  lemma {:induction false} AtDistance(base: Word, o: nat)
    requires o < 0x1_0000_0000
    ensures Difference(At(base, o), base) == WordOf(o)
  {
    if o == 0 {
      SelfDifference(base);
      assert Digits(0) == [ByteOf(0), ByteOf(0), ByteOf(0), ByteOf(0)];
    } else {
      AtDistance(base, o - 1);
      AtStep(base, o);
      WordOfNext(o - 1, o);
      DistanceStep(At(base, o - 1), At(base, o), base, WordOf(o - 1), WordOf(o));
    }
  }

  lemma AtStep(base: Word, o: nat)
    requires o > 0
    ensures At(base, o) == At(base, o - 1) + 1
  {
  }

  // One step further from `base` is one more in the distance.
  lemma DistanceStep(a: Word, a': Word, base: Word, w: Word, w': Word)
    requires a' == a + 1 && Difference(a, base) == w && w' == w + 1
    ensures Difference(a', base) == w'
  {
  }

  /** Within 2^32 bytes, distinct offsets from one base are distinct addresses. */
  lemma AtInjective(base: Word, o: nat, p: nat)
    requires o < 0x1_0000_0000 && p < 0x1_0000_0000 && At(base, o) == At(base, p)
    ensures o == p
  {
    AtDistance(base, o);
    AtDistance(base, p);
    WordOfInjective(o, p);
  }

  /** The 32-bit difference `a - b`, named so that the distance facts above are about one term. */
  function Difference(a: Word, b: Word): Word {
    a - b
  }

  lemma SelfDifference(a: Word)
    ensures Difference(a, a) == 0
  {
  }

  // Adding one to the word of n, by the position of the digit that absorbs the carry.

  lemma WordOfNext(n: nat, m: nat)
    requires m == n + 1 && m < 0x1_0000_0000
    ensures WordOf(m) == WordOf(n) + 1
  {
    WordOfSucc(n);
  }

  lemma WordOfSucc(n: nat)
    requires n + 1 < 0x1_0000_0000
    ensures WordOf(n + 1) == WordOf(n) + 1
  {
    if n % 0x100 < 0xFF {
      Carries0(n);
      Succ0(n);
    } else if n / 0x100 % 0x100 < 0xFF {
      Carries1(n);
      Succ1(n);
    } else if n / 0x100 / 0x100 % 0x100 < 0xFF {
      Carries2(n);
      Succ2(n);
    } else {
      Carries3(n);
      Succ3(n);
    }
  }

  lemma NoCarry(n: nat)
    requires n % 0x100 < 0xFF
    ensures Digit(n + 1, 0) == Digit(n, 0) + 1 && Digit(n + 1, 1) == Digit(n, 1)
    ensures Digit(n + 1, 2) == Digit(n, 2) && Digit(n + 1, 3) == Digit(n, 3)
  {
    assert (n + 1) / 0x100 == n / 0x100;
  }

  lemma CarryOut(n: nat)
    requires n % 0x100 == 0xFF
    ensures Digit(n, 0) == 0xFF && Digit(n + 1, 0) == 0
    ensures Digit(n + 1, 1) == Digit(n / 0x100 + 1, 0) && Digit(n, 1) == Digit(n / 0x100, 0)
    ensures Digit(n + 1, 2) == Digit(n / 0x100 + 1, 1) && Digit(n, 2) == Digit(n / 0x100, 1)
    ensures Digit(n + 1, 3) == Digit(n / 0x100 + 1, 2) && Digit(n, 3) == Digit(n / 0x100, 2)
  {
    assert (n + 1) / 0x100 == n / 0x100 + 1;
  }

  lemma Carries0(n: nat)
    requires n % 0x100 < 0xFF
    ensures Digit(n, 0) < 0xFF && Digit(n + 1, 0) == Digit(n, 0) + 1
    ensures Digit(n + 1, 1) == Digit(n, 1) && Digit(n + 1, 2) == Digit(n, 2) && Digit(n + 1, 3) == Digit(n, 3)
  {
    NoCarry(n);
  }

  lemma Carries1(n: nat)
    requires n % 0x100 == 0xFF && n / 0x100 % 0x100 < 0xFF
    ensures Digit(n, 0) == 0xFF && Digit(n + 1, 0) == 0
    ensures Digit(n, 1) < 0xFF && Digit(n + 1, 1) == Digit(n, 1) + 1
    ensures Digit(n + 1, 2) == Digit(n, 2) && Digit(n + 1, 3) == Digit(n, 3)
  {
    CarryOut(n);
    NoCarry(n / 0x100);
  }

  lemma Carries2(n: nat)
    requires n % 0x100 == 0xFF && n / 0x100 % 0x100 == 0xFF && n / 0x100 / 0x100 % 0x100 < 0xFF
    ensures Digit(n, 0) == 0xFF && Digit(n + 1, 0) == 0 && Digit(n, 1) == 0xFF && Digit(n + 1, 1) == 0
    ensures Digit(n, 2) < 0xFF && Digit(n + 1, 2) == Digit(n, 2) + 1 && Digit(n + 1, 3) == Digit(n, 3)
  {
    CarryOut(n);
    CarryOut(n / 0x100);
    NoCarry(n / 0x100 / 0x100);
  }

  lemma Carries3(n: nat)
    requires n + 1 < 0x1_0000_0000
    requires n % 0x100 == 0xFF && n / 0x100 % 0x100 == 0xFF && n / 0x100 / 0x100 % 0x100 == 0xFF
    ensures Digit(n, 0) == 0xFF && Digit(n + 1, 0) == 0 && Digit(n, 1) == 0xFF && Digit(n + 1, 1) == 0
    ensures Digit(n, 2) == 0xFF && Digit(n + 1, 2) == 0
    ensures Digit(n, 3) < 0xFF && Digit(n + 1, 3) == Digit(n, 3) + 1
  {
    CarryOut(n);
    TopDigitBelowMax(n);
    Carries2(n / 0x100);
  }

  // Below 2^32 - 1, the top base-256 digit of a number whose low three digits are all 0xFF is below 0xFF.
  lemma TopDigitBelowMax(n: nat)
    requires n + 1 < 0x1_0000_0000
    requires n % 0x100 == 0xFF && n / 0x100 % 0x100 == 0xFF && n / 0x100 / 0x100 % 0x100 == 0xFF
    ensures n / 0x100 / 0x100 / 0x100 % 0x100 < 0xFF
  {
  }

  lemma Succ0(n: nat)
    requires Digit(n, 0) < 0xFF && Digit(n + 1, 0) == Digit(n, 0) + 1
    requires Digit(n + 1, 1) == Digit(n, 1) && Digit(n + 1, 2) == Digit(n, 2) && Digit(n + 1, 3) == Digit(n, 3)
    ensures WordOf(n + 1) == WordOf(n) + 1
  {
    ByteOfSucc(Digit(n, 0));
    var x0, y0, x1, x2, x3 := ByteOf(Digit(n, 0)), ByteOf(Digit(n + 1, 0)), ByteOf(Digit(n, 1)), ByteOf(Digit(n, 2)), ByteOf(Digit(n, 3));
    assert Digits(n) == [x0, x1, x2, x3];
    assert Digits(n + 1) == [y0, x1, x2, x3];
    Inc0(x0, y0, x1, x2, x3);
  }

  lemma Succ1(n: nat)
    requires Digit(n, 0) == 0xFF && Digit(n + 1, 0) == 0
    requires Digit(n, 1) < 0xFF && Digit(n + 1, 1) == Digit(n, 1) + 1
    requires Digit(n + 1, 2) == Digit(n, 2) && Digit(n + 1, 3) == Digit(n, 3)
    ensures WordOf(n + 1) == WordOf(n) + 1
  {
    ByteOfSucc(Digit(n, 1));
    ByteOfMax();
    assert Digits(n) == [0xFF, ByteOf(Digit(n, 1)), ByteOf(Digit(n, 2)), ByteOf(Digit(n, 3))];
    assert Digits(n + 1) == [0, ByteOf(Digit(n + 1, 1)), ByteOf(Digit(n, 2)), ByteOf(Digit(n, 3))];
    Inc1(0, 0xFF, ByteOf(Digit(n, 1)), ByteOf(Digit(n + 1, 1)), ByteOf(Digit(n, 2)), ByteOf(Digit(n, 3)));
  }

  lemma Succ2(n: nat)
    requires Digit(n, 0) == 0xFF && Digit(n + 1, 0) == 0 && Digit(n, 1) == 0xFF && Digit(n + 1, 1) == 0
    requires Digit(n, 2) < 0xFF && Digit(n + 1, 2) == Digit(n, 2) + 1 && Digit(n + 1, 3) == Digit(n, 3)
    ensures WordOf(n + 1) == WordOf(n) + 1
  {
    ByteOfSucc(Digit(n, 2));
    ByteOfMax();
    assert Digits(n) == [0xFF, 0xFF, ByteOf(Digit(n, 2)), ByteOf(Digit(n, 3))];
    assert Digits(n + 1) == [0, 0, ByteOf(Digit(n + 1, 2)), ByteOf(Digit(n, 3))];
    Inc2(0, 0xFF, ByteOf(Digit(n, 2)), ByteOf(Digit(n + 1, 2)), ByteOf(Digit(n, 3)));
  }

  lemma Succ3(n: nat)
    requires Digit(n, 0) == 0xFF && Digit(n + 1, 0) == 0 && Digit(n, 1) == 0xFF && Digit(n + 1, 1) == 0
    requires Digit(n, 2) == 0xFF && Digit(n + 1, 2) == 0
    requires Digit(n, 3) < 0xFF && Digit(n + 1, 3) == Digit(n, 3) + 1
    ensures WordOf(n + 1) == WordOf(n) + 1
  {
    ByteOfSucc(Digit(n, 3));
    ByteOfMax();
    assert Digits(n) == [0xFF, 0xFF, 0xFF, ByteOf(Digit(n, 3))];
    assert Digits(n + 1) == [0, 0, 0, ByteOf(Digit(n + 1, 3))];
    Inc3(0, 0xFF, ByteOf(Digit(n, 3)), ByteOf(Digit(n + 1, 3)));
  }

  // The carry chains of a 32-bit increment, on the four bytes of a little-endian word.

  lemma Inc0(x0: Byte, y0: Byte, x1: Byte, x2: Byte, x3: Byte)
    requires x0 < 0xFF && y0 == x0 + 1
    ensures LoadLe32([y0, x1, x2, x3], 0) == LoadLe32([x0, x1, x2, x3], 0) + 1
  {
  }

  lemma Inc1(z: Byte, f: Byte, x1: Byte, y1: Byte, x2: Byte, x3: Byte)
    requires z == 0 && f == 0xFF && x1 < 0xFF && y1 == x1 + 1
    ensures LoadLe32([z, y1, x2, x3], 0) == LoadLe32([f, x1, x2, x3], 0) + 1
  {
  }

  lemma Inc2(z: Byte, f: Byte, x2: Byte, y2: Byte, x3: Byte)
    requires z == 0 && f == 0xFF && x2 < 0xFF && y2 == x2 + 1
    ensures LoadLe32([z, z, y2, x3], 0) == LoadLe32([f, f, x2, x3], 0) + 1
  {
  }

  lemma Inc3(z: Byte, f: Byte, x3: Byte, y3: Byte)
    requires z == 0 && f == 0xFF && x3 < 0xFF && y3 == x3 + 1
    ensures LoadLe32([z, z, z, y3], 0) == LoadLe32([f, f, f, x3], 0) + 1
  {
  }
}
