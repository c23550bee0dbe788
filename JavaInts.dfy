/**
 * Java's fixed-width integer arithmetic, written out over unbounded `int`.
 * `Int32` is the value a Java `(int)` cast, an `int` overflow or an `int`
 * shift produces; `Int64` does the same for `long`.
 */
module JavaInts {

  const TWO_31: int := 0x8000_0000
  const TWO_32: int := 0x1_0000_0000
  const TWO_63: int := 0x8000_0000_0000_0000
  const TWO_64: int := 0x1_0000_0000_0000_0000

  /** Two's complement truncation to 32 bits. */
  function Int32(x: int): (r: int)
    ensures -TWO_31 <= r < TWO_31
    ensures -TWO_31 <= x < TWO_31 ==> r == x
  {
    if -TWO_31 <= x < TWO_31 then x
    else
      var m := x % TWO_32;
      if m < TWO_31 then m else m - TWO_32
  }

  /** Two's complement truncation to 64 bits. */
  function Int64(x: int): (r: int)
    ensures -TWO_63 <= r < TWO_63
    ensures -TWO_63 <= x < TWO_63 ==> r == x
  {
    if -TWO_63 <= x < TWO_63 then x
    else
      var m := x % TWO_64;
      if m < TWO_63 then m else m - TWO_64
  }

  /** The truncation moves its argument by a whole number of 2^32 steps. */
  lemma Int32Congruent(x: int)
    ensures (Int32(x) - x) % TWO_32 == 0
  {
    if !(-TWO_31 <= x < TWO_31) {
      var q, m := x / TWO_32, x % TWO_32;
      var k := if m < TWO_31 then -q else -q - 1;
      assert Int32(x) - x == k * TWO_32;
    }
  }

  /** The truncation moves its argument by a whole number of 2^64 steps. */
  lemma Int64Congruent(x: int)
    ensures (Int64(x) - x) % TWO_64 == 0
  {
    if !(-TWO_63 <= x < TWO_63) {
      var q, m := x / TWO_64, x % TWO_64;
      var k := if m < TWO_63 then -q else -q - 1;
      assert Int64(x) - x == k * TWO_64;
    }
  }

  function Pow2(n: nat): (r: nat)
    ensures r >= 1
  {
    if n == 0 then 1 else 2 * Pow2(n - 1)
  }

  lemma {:induction false} Pow2Add(a: nat, b: nat)
    ensures Pow2(a + b) == Pow2(a) * Pow2(b)
  {
    if b > 0 {
      Pow2Add(a, b - 1);
      assert Pow2(a + b) == 2 * Pow2(a + b - 1);
    }
  }

  lemma {:induction false} Pow2Monotone(a: nat, b: nat)
    requires a <= b
    ensures Pow2(a) <= Pow2(b)
  {
    if a < b {
      Pow2Monotone(a, b - 1);
    }
  }

  lemma Pow2Seven(s: nat)
    ensures Pow2(s + 7) == 128 * Pow2(s)
  {
    Pow2Add(s, 7);
  }

  /** `x` doubled `k` times, exactly. */
  function ShiftLeftBits(x: int, k: nat): (r: int) {
    if k == 0 then x else 2 * ShiftLeftBits(x, k - 1)
  }

  lemma {:induction false} ShiftLeftBitsValue(x: int, k: nat)
    ensures ShiftLeftBits(x, k) == x * Pow2(k)
  {
    if k > 0 {
      ShiftLeftBitsValue(x, k - 1);
    }
  }

  /**
   * Java `int` left shift `x << s` for 0 <= x < 128: the shift distance is
   * taken modulo 32 and the product truncated to 32 bits.
   */
  function ShiftLeftInt(x: int, s: nat): (r: int)
    ensures -TWO_31 <= r < TWO_31
  {
    Int32(ShiftLeftBits(x, s % 32))
  }

  /** The powers the 7-bit groups of a size header are shifted by. */
  lemma Pow2Groups()
    ensures Pow2(4) == 16 && Pow2(11) == 0x800 && Pow2(18) == 0x4_0000 && Pow2(25) == 0x200_0000
    ensures Pow2(32) == TWO_32
  {
    assert Pow2(4) == 16;
    Pow2Seven(4);
    Pow2Seven(11);
    Pow2Seven(18);
    Pow2Seven(25);
  }

  lemma Pow2TwentyEight()
    ensures Pow2(28) == 0x1000_0000
  {
    Pow2Groups();
    Pow2Add(25, 3);
  }

  lemma Pow2ThirtyOne()
    ensures Pow2(31) == TWO_31
  {
    Pow2Groups();
    Pow2Add(25, 6);
    assert Pow2(6) == 64;
  }

  lemma Pow2ThirtyFive()
    ensures Pow2(35) == 0x8_0000_0000
  {
    Pow2Groups();
    Pow2Add(32, 3);
  }

  lemma MulAtLeast(x: nat, p: nat)
    requires x >= 1
    ensures x * p >= p
  {
    assert x * p == p + (x - 1) * p;
  }

  /** A shift whose product stays inside `int` range is an exact multiplication. */
  lemma ShiftLeftExact(x: nat, s: nat)
    requires x * Pow2(s) < TWO_31
    ensures ShiftLeftInt(x, s) == x * Pow2(s)
  {
    assert ShiftLeftBits(x, s % 32) == x * Pow2(s) by {
      ShiftLeftBitsValue(x, s % 32);
      if x > 0 {
        ShiftBelow31(x, s);
        assert s % 32 == s;
      }
    }
    MulNonneg(x, Pow2(s));
  }

  /** A nonzero value shifted by 31 or more places leaves `int` range. */
  lemma ShiftBelow31(x: nat, s: nat)
    requires x >= 1 && x * Pow2(s) < TWO_31
    ensures s < 31
  {
    if s >= 31 {
      MulAtLeast(x, Pow2(s));
      Pow2Monotone(31, s);
      Pow2ThirtyOne();
    }
  }

  lemma MulNonneg(a: nat, b: nat)
    ensures a * b >= 0
  {
  }
}
