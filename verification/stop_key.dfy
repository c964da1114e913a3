/**
 * The stop test of the main loop: the key code returned by the GUI's key poll, masked to its
 * low byte, compared with the code of lower-case 'q'. The poll returns -1 when no key was
 * pressed and may carry modifier bits above the low byte.
 */
module StopKey {

  /** Code of lower-case 'q', the only key that stops the loop. */
  const QuitKey: int := 113

  /** Code of upper-case 'Q', the key named in the printed instruction. */
  const PrintedKey: int := 81

  /** What the key poll returns when no key was pressed. */
  const NoKey: int := -1

  /** The mask applied to the key code. */
  const ByteMask: nat := 0xFF

  /** Two to the power `n`. */
  function Pow2(n: nat): (p: nat)
    ensures p >= 1
  {
    if n == 0 then 1 else 2 * Pow2(n - 1)
  }

  /** Bitwise AND of two non-negative integers, taken bit by bit from the least significant. */
  function AndNat(a: nat, b: nat): nat
    decreases a
  {
    if a == 0 || b == 0 then 0
    else (if a % 2 == 1 && b % 2 == 1 then 1 else 0) + 2 * AndNat(a / 2, b / 2)
  }

  /** The bits of `b` that are clear in `m` (`b & ~m`), for non-negative `b` and `m`. */
  function AndNotNat(b: nat, m: nat): nat
    decreases b
  {
    if b == 0 then 0
    else (if b % 2 == 1 && m % 2 == 0 then 1 else 0) + 2 * AndNotNat(b / 2, m / 2)
  }

  /**
   * Python's `key & mask` for a non-negative mask. Python integers are two's complement with
   * unbounded sign extension, so a negative key is `~m` for `m = -key - 1`: its bits are the
   * complement of the bits of `m`.
   */
  function BitAnd(key: int, mask: nat): nat
  {
    if key >= 0 then AndNat(key, mask) else AndNotNat(mask, -key - 1)
  }

  /** A non-zero multiple of a positive number is at least that number away from zero. */
  lemma MulAwayFromZero(d: int, k: int)
    requires d > 0
    ensures k >= 1 ==> d * k >= d
    ensures k <= -1 ==> d * k <= -d
  {
    if k >= 1 {
      assert d * k == d + d * (k - 1);
    } else if k <= -1 {
      assert d * k == -d - d * (-k - 1);
    }
  }

  /** Euclidean division is unique: any decomposition with a remainder in range is the one `%` gives. */
  lemma ModUnique(a: int, d: int, q: int, r: int)
    requires 0 < d && 0 <= r < d
    requires a == d * q + r
    ensures a % d == r && a / d == q
  {
    var k := a / d - q;
    assert d * k == r - a % d;
    MulAwayFromZero(d, k);
  }

  /** Splitting off the lowest bit: `a % 2d` is the lowest bit plus twice `(a / 2) % d`. */
  lemma ModDouble(a: nat, d: nat)
    requires d > 0
    ensures a % (2 * d) == a % 2 + 2 * ((a / 2) % d)
  {
    var q, r := a / 2, a % 2;
    var t, s := q / d, q % d;
    assert a == 2 * d * t + (2 * s + r);
    ModUnique(a, 2 * d, t, 2 * s + r);
  }

  /** The lowest n bits of a non-negative integer, as a number, read off one bit at a time. */
  function LowBits(a: nat, n: nat): nat
  {
    if n == 0 then 0 else a % 2 + 2 * LowBits(a / 2, n - 1)
  }

  /** A mask of n > 0 one-bits is odd, and halving it leaves n - 1 one-bits. */
  lemma OnesStep(n: nat)
    requires n > 0
    ensures Pow2(n) == 2 * Pow2(n - 1)
    ensures (Pow2(n) - 1) % 2 == 1 && (Pow2(n) - 1) / 2 == Pow2(n - 1) - 1
  {
    var p := Pow2(n - 1);
    assert Pow2(n) == 2 * p;
    ModUnique(Pow2(n) - 1, 2, p - 1, 1);
  }

  /** One step of `AndNat` against an odd mask. */
  lemma AndOddStep(a: nat, b: nat)
    requires a != 0 && b % 2 == 1
    ensures AndNat(a, b) == a % 2 + 2 * AndNat(a / 2, b / 2)
  {
  }

  /** One step of `AndNotNat` with an odd left operand. */
  lemma AndNotOddStep(b: nat, m: nat)
    requires b % 2 == 1
    ensures AndNotNat(b, m) == 1 - m % 2 + 2 * AndNotNat(b / 2, m / 2)
  {
  }

  /** Masking a non-negative integer with n one-bits keeps its lowest n bits. */
  lemma {:induction false} AndLowBits(a: nat, mask: nat, n: nat)
    requires mask == Pow2(n) - 1
    ensures AndNat(a, mask) == LowBits(a, n)
  {
    if n == 0 {
    } else if a == 0 {
      ZeroLowBits(n);
    } else {
      OnesStep(n);
      AndOddStep(a, mask);
      AndLowBits(a / 2, mask / 2, n - 1);
    }
  }

  lemma {:induction false} ZeroLowBits(n: nat)
    ensures LowBits(0, n) == 0
  {
    if n > 0 {
      ZeroLowBits(n - 1);
    }
  }

  /** Masking the complement of a non-negative integer with n one-bits gives 2^n - 1 minus its lowest n bits. */
  lemma {:induction false} AndNotLowBits(mask: nat, m: nat, n: nat)
    requires mask == Pow2(n) - 1
    ensures AndNotNat(mask, m) == mask - LowBits(m, n)
  {
    if n > 0 {
      OnesStep(n);
      AndNotOddStep(mask, m);
      AndNotLowBits(mask / 2, m / 2, n - 1);
    }
  }

  /** The lowest n bits of a number are its remainder modulo 2^n. */
  lemma {:induction false} LowBitsMod(a: nat, n: nat)
    ensures LowBits(a, n) == a % Pow2(n)
  {
    if n > 0 {
      LowBitsMod(a / 2, n - 1);
      ModDouble(a, Pow2(n - 1));
    }
  }

  /** 0xFF is a mask of eight one-bits. */
  lemma ByteWidth()
    ensures Pow2(8) - 1 == ByteMask && Pow2(8) == 256
  {
  }

  /** The remainder of a negative key `~m` is 255 minus the remainder of `m`. */
  lemma ComplementMod(key: int)
    requires key < 0
    ensures key % 256 == 255 - (-key - 1) % 256
  {
    var m := -key - 1;
    ModUnique(key, 256, -(m / 256) - 1, 255 - m % 256);
  }

  /** The low byte of a non-negative integer, bit by bit, is its remainder modulo 256. */
  lemma LowByteMod(a: nat)
    ensures LowBits(a, 8) == a % 256
  {
    ByteWidth();
    LowBitsMod(a, 8);
  }

  /** `key & mask` with a mask of n one-bits, for either sign of `key`. */
  lemma MaskLowBits(key: int, mask: nat, n: nat)
    requires mask == Pow2(n) - 1
    ensures key >= 0 ==> BitAnd(key, mask) == LowBits(key, n)
    ensures key < 0 ==> BitAnd(key, mask) == mask - LowBits(-key - 1, n)
  {
    if key >= 0 {
      AndLowBits(key, mask, n);
    } else {
      AndNotLowBits(mask, -key - 1, n);
    }
  }

  /** `a & 0xFF` for a non-negative `a`. */
  lemma MaskNonNegative(a: nat)
    ensures BitAnd(a, ByteMask) == a % 256
  {
    ByteWidth();
    MaskLowBits(a, ByteMask, 8);
    LowByteMod(a);
  }

  /** `key & 0xFF` for a negative `key`, the complement `~m` of `m = -key - 1`. */
  lemma MaskNegative(key: int)
    requires key < 0
    ensures BitAnd(key, ByteMask) == 255 - (-key - 1) % 256
  {
    ByteWidth();
    MaskLowBits(key, ByteMask, 8);
    LowByteMod(-key - 1);
  }

  /** Python's `key & 0xFF` on a two's-complement key is the key's remainder modulo 256. */
  lemma MaskIsMod(key: int)
    ensures BitAnd(key, ByteMask) == key % 256
  {
    if key >= 0 {
      MaskNonNegative(key);
    } else {
      MaskNegative(key);
      ComplementMod(key);
    }
  }

  /** Python's `key & 0xFF`, the low byte of the key code in two's complement. */
  function LowByte(key: int): (b: nat)
    ensures b < 256
    ensures b == key % 256
  {
    MaskIsMod(key);
    BitAnd(key, ByteMask)
  }

  /** The loop stops after an iteration whose key poll gave `key`. */
  predicate ShouldStop(key: int): (stop: bool)
    ensures stop <==> key % 256 == QuitKey
  {
    LowByte(key) == QuitKey
  }

  /** A key code made of the byte `low` and the bits `high` above it. */
  function KeyCode(high: int, low: int): int
  {
    256 * high + low
  }

  /** A key code stops the loop exactly when its low byte is 'q', whatever the bits above it. */
  lemma StopsIff(high: int, low: int)
    requires 0 <= low < 256
    ensures ShouldStop(KeyCode(high, low)) <==> low == QuitKey
  {
    ModUnique(KeyCode(high, low), 256, high, low);
  }

  /** The printed instruction names 'Q', which does not stop the loop; no key press does not either. */
  lemma PrintedKeyIgnored()
    ensures ShouldStop(QuitKey)
    ensures !ShouldStop(PrintedKey)
    ensures !ShouldStop(NoKey)
    ensures LowByte(NoKey) == 255
  {
  }

}
