/** Arithmetic of unsigned machine words as the store uses it: shifts, xor, or, masking
    and the power-of-two round-up of util/kv_util.h, on natural numbers. */
module Bits {

  type Byte = x: nat | x < 256

  const WORD64 := 0x1_0000_0000_0000_0000

  function Pow2(n: nat): (r: nat)
    ensures r > 0
  {
    if n == 0 then 1 else 2 * Pow2(n - 1)
  }

  lemma {:induction false} Pow2Add(a: nat, b: nat)
    ensures Pow2(a + b) == Pow2(a) * Pow2(b)
  {
    if a > 0 {
      Pow2Add(a - 1, b);
      assert Pow2(a + b) == 2 * Pow2(a - 1 + b);
    }
  }

  lemma {:induction false} Pow2Monotone(a: nat, b: nat)
    requires a <= b
    ensures Pow2(a) <= Pow2(b)
    ensures a < b ==> 2 * Pow2(a) <= Pow2(b)
  {
    if a < b {
      Pow2Monotone(a, b - 1);
    }
  }

  lemma Pow2Square(n: nat, p: nat)
    requires Pow2(n) == p
    ensures Pow2(n + n) == p * p
  {
    Pow2Add(n, n);
  }

  lemma Pow2Of64()
    ensures Pow2(64) == WORD64
    ensures Pow2(32) == 0x1_0000_0000
  {
    Pow2Square(1, 2);
    Pow2Square(2, 4);
    Pow2Square(4, 0x10);
    Pow2Square(8, 0x100);
    Pow2Square(16, 0x1_0000);
    Pow2Square(32, 0x1_0000_0000);
  }

  /** x >> n. */
  function Shr(x: nat, n: nat): nat {
    Quotient(x, Pow2(n))
  }

  lemma QuotientBelow(x: nat, d: nat, n: nat)
    requires d > 0 && x < d * n
    ensures Quotient(x, d) < n
  {
    var q := Quotient(x, d);
    assert (n - q) * d > 0;
    MultipleIsFar(n - q, d);
  }

  function Quotient(x: nat, d: nat): (q: nat)
    requires d > 0
    ensures q * d <= x < q * d + d
  {
    var q := x / d;
    assert x == q * d + x % d;
    assert q >= 0 by { MultipleIsFar(q, d); }
    q
  }

  /** x << n, before it is cut to the word. */
  function Shl(x: nat, n: nat): nat {
    x * Pow2(n)
  }

  /** The low 64 bits. */
  function Wrap64(x: nat): (r: nat)
    ensures x < WORD64 ==> r == x
    ensures r < WORD64
  {
    x % WORD64
  }

  /** Exclusive or, digit by digit. */
  function BitXor(a: nat, b: nat): nat
    decreases a + b
  {
    if a == 0 then b
    else if b == 0 then a
    else 2 * BitXor(a / 2, b / 2) + (a + b) % 2
  }

  /** Inclusive or, digit by digit. */
  function BitOr(a: nat, b: nat): nat
    decreases a + b
  {
    if a == 0 then b
    else if b == 0 then a
    else 2 * BitOr(a / 2, b / 2) + (if a % 2 == 0 && b % 2 == 0 then 0 else 1)
  }

  /** Conjunction, digit by digit. */
  function BitAnd(a: nat, b: nat): nat
    decreases a + b
  {
    if a == 0 || b == 0 then 0
    else 2 * BitAnd(a / 2, b / 2) + (if a % 2 == 1 && b % 2 == 1 then 1 else 0)
  }

  /** Exclusive or does not leave the word its operands fit in. */
  lemma {:induction false} XorStaysInWord(a: nat, b: nat, n: nat)
    requires a < Pow2(n) && b < Pow2(n)
    ensures BitXor(a, b) < Pow2(n)
  {
    if a != 0 && b != 0 {
      XorStaysInWord(a / 2, b / 2, n - 1);
    }
  }

  lemma ShlStep(q: nat, n: nat)
    requires n > 0
    ensures Shl(q, n) == 2 * Shl(q, n - 1)
  {
    assert q * (2 * Pow2(n - 1)) == 2 * (q * Pow2(n - 1));
  }

  lemma OrWithEven(half: nat, low: nat)
    ensures BitOr(2 * half, low) == 2 * BitOr(half, low / 2) + low % 2
  {
  }

  /** An address whose low n bits are clear, or-ed with an n-bit number, is their sum. */
  lemma {:induction false} OrOfDisjoint(q: nat, low: nat, n: nat)
    requires low < Pow2(n)
    ensures BitOr(Shl(q, n), low) == Shl(q, n) + low
  {
    if n > 0 {
      ShlStep(q, n);
      OrOfDisjoint(q, low / 2, n - 1);
      OrWithEven(Shl(q, n - 1), low);
    }
  }

  lemma ModOfMultiple(q: nat, d: nat)
    requires d > 0
    ensures (q * d) % d == 0 && (q * d) / d == q
  {
    DivModUnique(q * d, d, q, 0);
  }

  lemma MultipleIsFar(k: int, d: int)
    requires d > 0
    ensures k == 0 || k * d >= d || k * d <= -d
  {
    if k >= 1 {
      assert (k - 1) * d >= 0;
    } else if k <= -1 {
      assert (-1 - k) * d >= 0;
    }
  }

  /** Quotient and remainder are the only pair that recomposes the number. */
  lemma DivModUnique(x: int, d: int, q: int, r: int)
    requires d > 0 && 0 <= r < d && x == q * d + r
    ensures x / d == q && x % d == r
  {
    var q', r' := x / d, x % d;
    assert (q' - q) * d == r - r';
    MultipleIsFar(q' - q, d);
  }

  lemma AddToMultiple(q: nat, low: nat, d: nat)
    requires low < d
    ensures (q * d + low) % d == low && (q * d + low) / d == q
  {
    DivModUnique(q * d + low, d, q, low);
  }

  lemma Recompose(x: nat, d: nat)
    requires d > 0
    ensures x - x % d == (x / d) * d
  {
  }

  lemma HalveQuotient(x: nat, d: nat)
    requires d > 0
    ensures x / (2 * d) == (x / d) / 2
  {
    var q, r := x / d, x % d;
    assert x == (q / 2) * (2 * d) + ((q % 2) * d + r) by {
      assert q * d == (q / 2) * (2 * d) + (q % 2) * d;
    }
    assert 0 <= (q % 2) * d + r < 2 * d by {
      assert q % 2 == 0 || q % 2 == 1;
    }
    DivModUnique(x, 2 * d, q / 2, (q % 2) * d + r);
  }

  /** Masking with 2^n - 1 keeps the remainder modulo 2^n. */
  lemma {:induction false} AndLowMask(x: nat, n: nat)
    ensures BitAnd(x, Pow2(n) - 1) == x % Pow2(n)
  {
    if x != 0 && n > 0 {
      AndLowMask(x / 2, n - 1);
      assert (Pow2(n) - 1) / 2 == Pow2(n - 1) - 1;
      HalveMod(x, Pow2(n - 1));
    }
  }

  lemma HalveMod(x: nat, d: nat)
    requires d > 0
    ensures x % (2 * d) == 2 * ((x / 2) % d) + x % 2
  {
    var q, r := (x / 2) / d, (x / 2) % d;
    assert x == 2 * (q * d + r) + x % 2;
    assert x == q * (2 * d) + (2 * r + x % 2);
    DivModUnique(x, 2 * d, q, 2 * r + x % 2);
  }

  lemma AndWithEven(x: nat, mask: nat)
    ensures BitAnd(x, 2 * mask) == 2 * BitAnd(x / 2, mask)
  {
    var even := 2 * mask;
    assert even / 2 == mask && even % 2 == 0;
  }

  /** Masking an m-bit word with the complement of 2^n - 1 clears its low n bits. */
  lemma {:induction false} AndHighMask(x: nat, n: nat, m: nat)
    requires n <= m && x < Pow2(m)
    ensures Pow2(n) <= Pow2(m)
    ensures BitAnd(x, Pow2(m) - Pow2(n)) == x - x % Pow2(n)
  {
    Pow2Monotone(n, m);
    if n == 0 {
      AndLowMask(x, m);
      DivModUnique(x, Pow2(m), 0, x);
      DivModUnique(x, 1, x, 0);
    } else {
      AndHighMask(x / 2, n - 1, m - 1);
      AndWithEven(x, Pow2(m - 1) - Pow2(n - 1));
      HalveMod(x, Pow2(n - 1));
    }
  }

  /** nvm_kv_round_upto_blk: (value + (blk - 1)) & ~(blk - 1) on 64-bit words. */
  function RoundUptoBlk(value: nat, blk: nat): nat
    requires 0 < blk < WORD64
  {
    BitAnd(Wrap64(value + (blk - 1)), WORD64 - 1 - (blk - 1))
  }

  lemma RoundUpWithin(value: nat, blk: nat, n: nat, m: nat)
    requires n < m && blk == Pow2(n) && WORD64 == Pow2(m) && value + blk <= WORD64
    ensures 0 < blk < WORD64
    ensures RoundUptoBlk(value, blk) == CeilDiv(value, blk) * blk
  {
    Pow2Monotone(n, m);
    var x := value + (blk - 1);
    AndHighMask(x, n, m);
    Recompose(x, blk);
  }

  /** For a power-of-two block the mask trick is the least multiple not below the value. */
  lemma RoundUpIsLeastMultiple(value: nat, n: nat)
    requires n < 64 && value + Pow2(n) <= WORD64
    ensures Pow2(n) < WORD64
    ensures RoundUptoBlk(value, Pow2(n)) == CeilDiv(value, Pow2(n)) * Pow2(n)
  {
    Pow2Of64();
    RoundUpWithin(value, Pow2(n), n, 64);
  }

  function CeilDiv(x: nat, d: nat): nat
    requires d > 0
  {
    (x + d - 1) / d
  }

  lemma CeilDivBounds(x: nat, d: nat)
    requires d > 0
    ensures CeilDiv(x, d) * d - d < x <= CeilDiv(x, d) * d
  {
    var y := x + d - 1;
    assert y == (y / d) * d + y % d;
  }

  lemma ProductBound(a: nat, b: nat, d: nat)
    requires a < b && d > 0
    ensures a * d + d <= b * d
  {
    MultipleIsFar(b - a - 1, d);
    assert (b - a - 1) * d == b * d - a * d - d;
  }

  lemma CeilDivAtMost(x: nat, d: nat, n: nat)
    requires d > 0
    ensures CeilDiv(x, d) <= n <==> x <= n * d
  {
    var q := CeilDiv(x, d);
    CeilDivBounds(x, d);
    if q <= n {
      MultipleIsFar(n - q, d);
      assert (n - q) * d == n * d - q * d;
    } else {
      ProductBound(n, q, d);
    }
  }

  /** The shift loop that counts the bits below the top one: floor of log2. */
  method FloorLog2(x: nat) returns (bits: nat)
    requires x > 0
    ensures Pow2(bits) <= x < 2 * Pow2(bits)
  {
    bits := 0;
    var rest := x / 2;
    while rest > 0
      invariant rest == x / (2 * Pow2(bits))
      invariant Pow2(bits) <= x
      decreases rest
    {
      assert rest * (2 * Pow2(bits)) <= x;
      assert 2 * Pow2(bits) <= rest * (2 * Pow2(bits)) by { MultipleIsFar(rest, 2 * Pow2(bits)); }
      HalveQuotient(x, 2 * Pow2(bits));
      bits := bits + 1;
      rest := rest / 2;
    }
    assert x == 0 * (2 * Pow2(bits)) + x % (2 * Pow2(bits));
  }
}
