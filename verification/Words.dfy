/** Unsigned machine words and the bitwise operators the kernel applies to them.

    A word is a number below 2^32.  The C operators are defined digit by digit, so that
    one induction gives their meaning on every bit. */
module Words {

  // The build's KERNEL_SEG, where the boot loader puts the kernel file, and KERNEL_HIMEM, where it runs.
  const KERNEL_SEG: nat := 0x1000
  const KERNEL_HIMEM: nat := 0x10_0000

  const WORD_LIMIT: nat := 0x1_0000_0000

  type Word = w: nat | w < 0x1_0000_0000

  type Byte = b: nat | b < 0x100

  /** Conversion to a 32-bit type. */
  function Wrap32(v: nat): (w: Word)
    ensures v < 0x1_0000_0000 ==> w == v
  {
    v % 0x1_0000_0000
  }

  datatype Option<+T> = None | Some(value: T)

  function Pow2(k: nat): (p: nat)
    ensures p > k
  {
    if k == 0 then 1 else 2 * Pow2(k - 1)
  }

  /** The k-th binary digit of `w`. */
  predicate Bit(w: nat, k: nat) {
    if k == 0 then w % 2 == 1 else Bit(w / 2, k - 1)
  }

  /** `a | b` */
  function BitOr(a: nat, b: nat): nat
    decreases a + b
  {
    if a == 0 && b == 0 then 0
    else 2 * BitOr(a / 2, b / 2) + (if a % 2 == 1 || b % 2 == 1 then 1 else 0)
  }

  /** `a & b` */
  function BitAnd(a: nat, b: nat): nat {
    if a == 0 then 0
    else 2 * BitAnd(a / 2, b / 2) + (if a % 2 == 1 && b % 2 == 1 then 1 else 0)
  }

  /** `a & ~b` */
  function BitClear(a: nat, b: nat): nat {
    if a == 0 then 0
    else 2 * BitClear(a / 2, b / 2) + (if a % 2 == 1 && b % 2 == 0 then 1 else 0)
  }

  lemma {:induction false} ZeroBit(k: nat)
    ensures !Bit(0, k)
  {
    if k > 0 { ZeroBit(k - 1); }
  }

  /** ... that is, of the quotient by 2^k the last one. */
  lemma {:induction false} BitInNumbers(w: nat, k: nat)
    ensures Bit(w, k) <==> w / Pow2(k) % 2 == 1
  {
    if k > 0 {
      BitInNumbers(w / 2, k - 1);
      QuotientOfHalf(w, Pow2(k - 1));
    }
  }

  lemma QuotientOfHalf(w: nat, q: nat)
    requires q > 0
    ensures w / (2 * q) == w / 2 / q
  {
    var h := w / 2;
    var d, r := h / q, h % q;
    assert h == d * q + r;
    assert d * (2 * q) == 2 * (d * q);
    DivUnique(w, 2 * q, d, 2 * r + w % 2);
  }

  lemma {:induction false} BitOrBit(a: nat, b: nat, k: nat)
    ensures Bit(BitOr(a, b), k) <==> Bit(a, k) || Bit(b, k)
  {
    if a == 0 && b == 0 {
      ZeroBit(k);
    } else if k > 0 {
      BitOrBit(a / 2, b / 2, k - 1);
    }
  }

  lemma {:induction false} BitAndBit(a: nat, b: nat, k: nat)
    ensures Bit(BitAnd(a, b), k) <==> Bit(a, k) && Bit(b, k)
  {
    if a == 0 {
      ZeroBit(k);
    } else if k > 0 {
      BitAndBit(a / 2, b / 2, k - 1);
    }
  }

  lemma {:induction false} BitClearBit(a: nat, b: nat, k: nat)
    ensures Bit(BitClear(a, b), k) <==> Bit(a, k) && !Bit(b, k)
  {
    if a == 0 {
      ZeroBit(k);
    } else if k > 0 {
      BitClearBit(a / 2, b / 2, k - 1);
    }
  }

  lemma {:induction false} PowerBit(j: nat, k: nat)
    ensures Bit(Pow2(j), k) <==> j == k
  {
    if j == 0 {
      if k > 0 { ZeroBit(k - 1); }
    } else if k > 0 {
      PowerBit(j - 1, k - 1);
    }
  }

  /** Two numbers with the same binary digits are the same number. */
  lemma {:induction false} SameBits(a: nat, b: nat)
    requires forall k: nat :: Bit(a, k) == Bit(b, k)
    ensures a == b
    decreases a + b
  {
    if a != 0 || b != 0 {
      assert Bit(a, 0) == Bit(b, 0);
      forall k: nat ensures Bit(a / 2, k) == Bit(b / 2, k) {
        assert Bit(a, k + 1) == Bit(b, k + 1);
      }
      SameBits(a / 2, b / 2);
    }
  }

  lemma {:induction false} HighBitsZero(a: nat, n: nat, k: nat)
    requires a < Pow2(n) && n <= k
    ensures !Bit(a, k)
  {
    if n == 0 {
      ZeroBit(k);
    } else {
      HighBitsZero(a / 2, n - 1, k - 1);
    }
  }

  lemma {:induction false} Pow2Of32()
    ensures Pow2(32) == 0x1_0000_0000 && Pow2(16) == 0x1_0000 && Pow2(12) == 0x1000
  {
    assert Pow2(4) == 16;
    assert Pow2(8) == 16 * Pow2(4);
    assert Pow2(12) == 16 * Pow2(8);
    assert Pow2(16) == 16 * Pow2(12);
    assert Pow2(20) == 16 * Pow2(16);
    assert Pow2(24) == 16 * Pow2(20);
    assert Pow2(28) == 16 * Pow2(24);
    assert Pow2(32) == 16 * Pow2(28);
  }

  /** A word is determined by its 32 bits. */
  lemma {:induction false} SameWord(a: Word, b: Word)
    requires forall k: nat :: k < 32 ==> Bit(a, k) == Bit(b, k)
    ensures a == b
  {
    Pow2Of32();
    forall k: nat ensures Bit(a, k) == Bit(b, k) {
      if k >= 32 {
        HighBitsZero(a, 32, k);
        HighBitsZero(b, 32, k);
      }
    }
    SameBits(a, b);
  }

  lemma {:induction false} BitOrBound(a: nat, b: nat, n: nat)
    requires a < Pow2(n) && b < Pow2(n)
    ensures BitOr(a, b) < Pow2(n)
  {
    if n > 0 { BitOrBound(a / 2, b / 2, n - 1); }
  }

  lemma {:induction false} BitClearBound(a: nat, b: nat)
    ensures BitClear(a, b) <= a
  {
    if a != 0 { BitClearBound(a / 2, b / 2); }
  }

  lemma {:induction false} Pow2Monotone(j: nat, k: nat)
    requires j < k
    ensures Pow2(j) < Pow2(k)
  {
    if j + 1 < k { Pow2Monotone(j, k - 1); }
  }

  lemma Pow2IsWord(k: nat)
    requires k < 32
    ensures Pow2(k) < 0x1_0000_0000
  {
    Pow2Monotone(k, 32);
    Pow2Of32();
  }

  /** Testing a mask: `w & (1 << k)` is non-zero exactly when bit k of w is set. */
  lemma MaskTest(w: nat, k: nat)
    ensures BitAnd(w, Pow2(k)) != 0 <==> Bit(w, k)
  {
    BitAndBit(w, Pow2(k), k);
    PowerBit(k, k);
    if BitAnd(w, Pow2(k)) == 0 {
      ZeroBit(k);
    } else if !Bit(w, k) {
      forall j: nat ensures Bit(BitAnd(w, Pow2(k)), j) == Bit(0, j) {
        BitAndBit(w, Pow2(k), j);
        PowerBit(k, j);
        ZeroBit(j);
      }
      SameBits(BitAnd(w, Pow2(k)), 0);
    }
  }

  /** v rounded down to a multiple of m. */
  function RoundDown(v: nat, m: nat): nat
    requires m > 0
  {
    v / m * m
  }

  /** Masking off the low k bits rounds down to a multiple of 2^k. */
  lemma {:induction false} ClearLow(a: nat, k: nat)
    ensures BitClear(a, Pow2(k) - 1) == RoundDown(a, Pow2(k))
    decreases k
  {
    if k == 0 {
      ClearNothing(a);
      assert RoundDown(a, 1) == a;
    } else {
      ClearLow(a / 2, k - 1);
      ClearOneMore(a, Pow2(k - 1));
      HalfThenDivide(a, Pow2(k - 1));
    }
  }

  lemma ClearOneMore(a: nat, q: nat)
    requires q > 0
    ensures BitClear(a, 2 * q - 1) == 2 * BitClear(a / 2, q - 1)
  {
    assert (2 * q - 1) / 2 == q - 1;
  }

  lemma {:induction false} ClearNothing(a: nat)
    ensures BitClear(a, 0) == a
  {
    if a != 0 { ClearNothing(a / 2); }
  }

  lemma HalfThenDivide(a: nat, q: nat)
    requires q > 0
    ensures 2 * RoundDown(a / 2, q) == RoundDown(a, 2 * q)
  {
    var h := a / 2;
    var d, r := h / q, h % q;
    assert h == d * q + r;
    assert d * (2 * q) == 2 * (d * q);
    DivUnique(a, 2 * q, d, 2 * r + a % 2);
  }

  lemma MulGap(x: nat, y: nat, b: nat)
    requires x < y
    ensures x * b + b <= y * b
  {
    var d := y - x;
    assert y * b == x * b + d * b;
    assert d * b == (d - 1) * b + b;
  }

  lemma DivUnique(a: nat, b: nat, d: nat, r: nat)
    requires a == d * b + r && r < b
    ensures a / b == d && a % b == r
  {
    var e, t := a / b, a % b;
    assert a == e * b + t && t < b by { assert a == b * (a / b) + a % b; }
    if e < d { MulGap(e, d, b); }
    if d < e { MulGap(d, e, b); }
  }

  /** `(v + a - 1) & ~(a - 1)` for a power of two `a` (PMM.c, align_up). */
  function AlignUp(v: nat, a: nat): nat
    requires a > 0
  {
    BitClear(v + a - 1, a - 1)
  }

  /** Ceiling division, the rounding the allocator applies everywhere. */
  function CeilDiv(v: nat, a: nat): nat
    requires a > 0
  {
    (v + a - 1) / a
  }

  lemma CeilDivBounds(v: nat, a: nat)
    requires a > 0
    ensures v <= CeilDiv(v, a) * a < v + a
  {
    var u := v + a - 1;
    assert u == a * (u / a) + u % a;
    assert a * (u / a) == (u / a) * a;
  }

  /** align_up returns a multiple of the alignment, less than one step above the value. */
  lemma AlignUpMeaning(v: nat, k: nat, a: nat)
    requires a == Pow2(k)
    ensures var r := AlignUp(v, a); r == CeilDiv(v, a) * a && v <= r < v + a
  {
    ClearLow(v + a - 1, k);
    CeilDivBounds(v, a);
  }

  /** No smaller multiple of `a` reaches v. */
  lemma CeilDivIsLeast(v: nat, a: nat, m: nat)
    requires a > 0 && v <= m * a
    ensures CeilDiv(v, a) <= m
  {
    var c := CeilDiv(v, a);
    CeilDivBounds(v, a);
    if m < c {
      CeilStep(v, a, c);
      GapBelow(m, c, a);
    }
  }

  lemma CeilStep(v: nat, a: nat, c: nat)
    requires a > 0 && c * a < v + a && c > 0
    ensures (c - 1) * a < v
  {
    assert (c - 1) * a == c * a - a;
  }

  lemma GapBelow(m: nat, c: nat, a: nat)
    requires m < c
    ensures m * a <= (c - 1) * a
  {
    if m < c - 1 { MulGap(m, c - 1, a); }
  }

  /** Or with two low flag bits leaves a multiple of 4 and the flags side by side. */
  lemma OrLowFlags(m: nat)
    ensures BitOr(BitOr(4 * m, 1), 2) == 4 * m + 3
  {
    OrNothing(2 * m);
    OrNothing(m);
    assert 4 * m / 2 == 2 * m && (4 * m + 1) / 2 == 2 * m && 2 * m / 2 == m;
    assert BitOr(4 * m, 1) == 2 * BitOr(2 * m, 0) + 1;
    assert BitOr(2 * m, 1) == 2 * BitOr(m, 0) + 1;
  }

  lemma {:induction false} OrNothing(a: nat)
    ensures BitOr(a, 0) == a
  {
    if a != 0 { OrNothing(a / 2); }
  }

  lemma {:induction false} ShiftedBit(m: nat, s: nat, k: nat)
    ensures Bit(m * Pow2(s), k) <==> s <= k && Bit(m, k - s)
  {
    if s > 0 {
      var h := m * Pow2(s - 1);
      assert m * Pow2(s) == 2 * h;
      if k > 0 { ShiftedBit(m, s - 1, k - 1); }
    }
  }

  lemma {:induction false} OnesBit(n: nat, k: nat)
    ensures Bit(Pow2(n) - 1, k) <==> k < n
  {
    if n == 0 {
      ZeroBit(k);
    } else {
      assert (Pow2(n) - 1) / 2 == Pow2(n - 1) - 1;
      if k > 0 { OnesBit(n - 1, k - 1); }
    }
  }
}
