/** Bitwise operations on 64-bit words, as numbers. */
module Bits {
  import opened Text

  /** Bitwise and. */
  function And(x: nat, y: nat): nat
    decreases x
  {
    if x == 0 then 0 else 2 * And(x / 2, y / 2) + (if x % 2 == 1 && y % 2 == 1 then 1 else 0)
  }

  /** Bitwise complement of a word. */
  function Not(x: Word): Word {
    SIZE_MAX - x
  }

  /** Word addition, which wraps. */
  function WrapAdd(x: Word, y: Word): Word {
    (x + y) % (SIZE_MAX + 1)
  }

  function Pow2(k: nat): nat {
    if k == 0 then 1 else 2 * Pow2(k - 1)
  }

  ghost predicate IsPow2(n: nat) {
    exists k: nat :: n == Pow2(k)
  }

  lemma {:induction false} AndSelf(x: nat)
    ensures And(x, x) == x
  {
    if x > 0 {
      AndSelf(x / 2);
    }
  }

  lemma {:induction false} Pow2Positive(k: nat)
    ensures Pow2(k) > 0
  {
    if k > 0 {
      Pow2Positive(k - 1);
    }
  }

  /** The test `(a & (a - 1)) == 0` finds exactly the powers of two. */
  lemma {:induction false} PowerOfTwoTest(a: nat)
    requires a > 0
    ensures And(a, a - 1) == 0 <==> IsPow2(a)
  {
    if a % 2 == 1 {
      AndSelf(a / 2);
      assert (a - 1) / 2 == a / 2;
      if a == 1 {
        assert a == Pow2(0);
      } else {
        forall k: nat ensures a != Pow2(k) {
          if k > 0 {
            assert Pow2(k) % 2 == 0;
          }
        }
      }
    } else {
      PowerOfTwoTest(a / 2);
      assert (a - 1) / 2 == a / 2 - 1;
      if IsPow2(a / 2) {
        var k: nat :| a / 2 == Pow2(k);
        assert a == Pow2(k + 1);
      }
      if IsPow2(a) {
        var k: nat :| a == Pow2(k);
        assert k > 0 && a / 2 == Pow2(k - 1);
      }
    }
  }

  /** Halving a mask of ones from bit k up to bit n. */
  lemma HalfMask(n: nat, k: nat)
    requires k <= n && n > 0
    ensures k > 0 ==> (Pow2(n) - Pow2(k)) / 2 == Pow2(n - 1) - Pow2(k - 1) && (Pow2(n) - Pow2(k)) % 2 == 0
    ensures (Pow2(n) - 1) / 2 == Pow2(n - 1) - 1 && (Pow2(n) - 1) % 2 == 1
  {
  }

  lemma AndHalves(x: nat, y: nat)
    ensures And(x, y) == 2 * And(x / 2, y / 2) + if x % 2 == 1 && y % 2 == 1 then 1 else 0
  {
  }

  /** A mask without bit 0 rounds down twice as coarsely as its half... */
  lemma EvenMask(x: nat, mask: nat, m: nat)
    requires m > 0 && mask % 2 == 0 && And(x / 2, mask / 2) == x / 2 - x / 2 % m
    ensures And(x, mask) == x - x % (2 * m)
  {
    hide And;
    AndHalves(x, mask);
    ModOfDouble(x, m);
  }

  /** ...and one with bit 0 keeps what its half keeps. */
  lemma OddMask(x: nat, mask: nat)
    requires mask % 2 == 1 && And(x / 2, mask / 2) == x / 2
    ensures And(x, mask) == x
  {
    hide And;
    AndHalves(x, mask);
  }

  lemma MaskInOrder(n: nat, k: nat)
    requires k <= n
    ensures 0 < Pow2(k) <= Pow2(n)
  {
    Pow2Positive(k);
    Pow2Grows(k, n);
  }

  /** Masking with all ones above bit k rounds down to a multiple of 2^k. */
  lemma {:induction false} MaskRoundsDown(x: nat, n: nat, k: nat)
    requires k <= n && x < Pow2(n)
    ensures 0 < Pow2(k) <= Pow2(n)
    ensures And(x, Pow2(n) - Pow2(k)) == x - x % Pow2(k)
    decreases n
  {
    hide And;
    MaskInOrder(n, k);
    if n > 0 {
      HalfMask(n, k);
      if k == 0 {
        MaskRoundsDown(x / 2, n - 1, 0);
        assert x / 2 % Pow2(0) == 0;
        OddMask(x, Pow2(n) - 1);
      } else {
        MaskRoundsDown(x / 2, n - 1, k - 1);
        EvenMask(x, Pow2(n) - Pow2(k), Pow2(k - 1));
        assert 2 * Pow2(k - 1) == Pow2(k);
      }
    } else {
      AndZero(x, Pow2(n) - Pow2(k));
    }
  }

  lemma AndZero(x: nat, y: nat)
    requires x < 1
    ensures And(x, y) == 0
  {
  }

  lemma ModOfDouble(x: nat, m: nat)
    requires m > 0
    ensures x - x % (2 * m) == 2 * (x / 2 - x / 2 % m)
  {
    var h := x / 2;
    var q, r := h / m, h % m;
    assert h == q * m + r;
    assert x == q * (2 * m) + (2 * r + x % 2) by {
      assert q * (2 * m) == 2 * (q * m);
    }
    ModUnique(x, 2 * m, q, 2 * r + x % 2);
  }

  lemma ModUnique(x: nat, m: nat, q: nat, r: nat)
    requires m > 0 && x == q * m + r && r < m
    ensures x % m == r && x / m == q
  {
    var d := x / m - q;
    assert d * m == r - x % m by {
      assert x == x / m * m + x % m;
      assert d * m == x / m * m - q * m;
    }
    MultipleBounds(d, m);
  }

  lemma MultipleBounds(d: int, m: nat)
    ensures d >= 1 ==> d * m >= m
    ensures d <= -1 ==> d * m + m <= 0
  {
    if d >= 1 {
      assert d * m == (d - 1) * m + m;
    } else if d <= -1 {
      assert d * m + m == (d + 1) * m;
    }
  }

  lemma WordIsPow2()
    ensures Pow2(64) == SIZE_MAX + 1
  {
    assert Pow2(8) == 0x100;
    assert Pow2(16) == 0x100 * Pow2(8);
    assert Pow2(24) == 0x100 * Pow2(16);
    assert Pow2(32) == 0x100 * Pow2(24);
    assert Pow2(40) == 0x100 * Pow2(32);
    assert Pow2(48) == 0x100 * Pow2(40);
    assert Pow2(56) == 0x100 * Pow2(48);
    assert Pow2(64) == 0x100 * Pow2(56);
  }

  lemma {:induction false} Pow2Grows(j: nat, k: nat)
    requires j <= k
    ensures Pow2(j) <= Pow2(k)
  {
    if j < k {
      Pow2Grows(j, k - 1);
    }
  }

  lemma WordExponent(align: Word) returns (k: nat)
    requires IsPow2(align)
    ensures align == Pow2(k) && k <= 64
  {
    k :| align == Pow2(k);
    WordIsPow2();
    if k > 64 {
      Pow2Grows(65, k);
    }
  }

  lemma MaskIsComplement(w: Word, align: Word, k: nat)
    requires align > 0 && align == Pow2(k) && k <= 64
    ensures And(w, Not(align - 1)) == w - w % align
  {
    WordIsPow2();
    assert Not(align - 1) == Pow2(64) - Pow2(k);
    MaskRoundsDown(w, 64, k);
  }

  /** `(x + (align - 1)) & ~(align - 1)` on words rounds x up to a multiple of a power of two;
      if that multiple is not a word, the sum has wrapped and the mask leaves 0. */
  lemma RoundUpOrZero(x: Word, align: Word)
    requires align > 0 && IsPow2(align)
    ensures var r := And(WrapAdd(x, align - 1), Not(align - 1));
            var up := x + (align - 1) - (x + (align - 1)) % align;
            r == if up <= SIZE_MAX then up else 0
  {
    var k := WordExponent(align);
    var sum, w := x + (align - 1), WrapAdd(x, align - 1);
    MaskIsComplement(w, align, k);
    if sum > SIZE_MAX {
      WordIsMultiple(k);
      WrappedSum(sum, align, w);
    } else {
      ModUnique(sum, SIZE_MAX + 1, 0, sum);
    }
  }

  lemma WrappedSum(sum: nat, align: Word, w: Word)
    requires align > 0 && SIZE_MAX < sum <= SIZE_MAX + align && w == sum % (SIZE_MAX + 1)
    requires (SIZE_MAX + 1) / align * align == SIZE_MAX + 1
    ensures w % align == w && sum - sum % align == SIZE_MAX + 1
  {
    ModUnique(sum, SIZE_MAX + 1, 1, sum - (SIZE_MAX + 1));
    ModUnique(w, align, 0, w);
    ModUnique(sum, align, (SIZE_MAX + 1) / align, w);
  }

  /** 2^64 is a multiple of every smaller power of two. */
  lemma WordIsMultiple(k: nat)
    requires k <= 64
    ensures Pow2(k) > 0 && (SIZE_MAX + 1) / Pow2(k) * Pow2(k) == SIZE_MAX + 1
  {
    WordIsPow2();
    PowDivides(k, 64);
  }

  lemma {:induction false} PowDivides(k: nat, n: nat)
    requires k <= n
    ensures Pow2(k) > 0 && Pow2(n) / Pow2(k) * Pow2(k) == Pow2(n)
  {
    Pow2Positive(k);
    if k < n {
      PowDivides(k, n - 1);
      var q := Pow2(n - 1) / Pow2(k);
      assert Pow2(n) == 2 * q * Pow2(k);
      ModUnique(Pow2(n), Pow2(k), 2 * q, 0);
    } else {
      ModUnique(Pow2(n), Pow2(k), 1, 0);
    }
  }
}
