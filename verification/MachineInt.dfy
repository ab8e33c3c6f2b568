/** Fixed-width integers as C++ and LLVM see them. */
module MachineInt {

  function Pow2(n: nat): (p: nat)
    ensures p >= 1
  {
    if n == 0 then 1 else 2 * Pow2(n - 1)
  }

  lemma {:induction false} Pow2Monotone(m: nat, n: nat)
    requires m <= n
    ensures Pow2(m) <= Pow2(n)
    decreases n - m
  {
    if m < n {
      Pow2Monotone(m + 1, n);
    }
  }

  lemma {:induction false} Pow2Add(m: nat, n: nat)
    ensures Pow2(m + n) == Pow2(m) * Pow2(n)
  {
    if m > 0 {
      Pow2Add(m - 1, n);
      assert 2 * (Pow2(m - 1) * Pow2(n)) == (2 * Pow2(m - 1)) * Pow2(n);
    }
  }

  lemma Pow2Of64()
    ensures Pow2(63) == 0x8000_0000_0000_0000 && Pow2(64) == 0x1_0000_0000_0000_0000
  {
    assert Pow2(8) == 256;
    Pow2Add(8, 8);
    assert Pow2(16) == 0x1_0000;
    Pow2Add(16, 16);
    assert Pow2(32) == 0x1_0000_0000;
    Pow2Add(32, 32);
    assert Pow2(64) == 2 * Pow2(63);
  }

  const UINT64_MAX: nat := 0xFFFF_FFFF_FFFF_FFFF
  const INT64_MAX: int := 0x7FFF_FFFF_FFFF_FFFF
  const INT64_MIN: int := -0x8000_0000_0000_0000

  /** Two's-complement 64-bit reading of an integer. */
  function Wrap64(x: int): (r: int)
    ensures INT64_MIN <= r <= INT64_MAX
    ensures INT64_MIN <= x <= INT64_MAX ==> r == x
  {
    (x + 0x8000_0000_0000_0000) % 0x1_0000_0000_0000_0000 - 0x8000_0000_0000_0000
  }

  lemma WrapAbsorbs(x: int, y: int)
    ensures Wrap64(Wrap64(x) + y) == Wrap64(x + y)
  {
  }

  /** The signed value of the width-bit pattern u. */
  function Signed(width: nat, u: nat): int
    requires 1 <= width && u < Pow2(width)
  {
    if u < Pow2(width - 1) then u else u - Pow2(width)
  }

  /** The one number of the signed range that differs from the pattern by nothing or by a full
      turn. */
  lemma SignedMeans(width: nat, u: nat, x: int)
    requires 1 <= width && u < Pow2(width)
    ensures x == Signed(width, u) <==>
            -(Pow2(width - 1) as int) <= x < Pow2(width - 1) && (x == u || x == u - Pow2(width))
  {
  }

  lemma WidthBounds(width: nat)
    requires 1 <= width <= 64
    ensures Pow2(width) == 2 * Pow2(width - 1)
    ensures Pow2(width) <= 0x1_0000_0000_0000_0000
    ensures width < 64 ==> Pow2(width) <= 0x8000_0000_0000_0000
    ensures width == 64 ==> Pow2(width) == 0x1_0000_0000_0000_0000
  {
    Pow2Of64();
    Pow2Monotone(width, 64);
    if width < 64 {
      Pow2Monotone(width, 63);
    }
  }
}
