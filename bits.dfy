/**
 * Go's bitwise operators on bytes (`&`, `|` and unary `^`), defined on
 * non-negative integers bit by bit, least significant bit first, together
 * with what they do to a byte when the other operand is a run of high or of
 * low one bits, the only masks a prefix length produces.
 */
module Bits {

  /** A Go `byte`. */
  type Octet = n: int | 0 <= n < 0x100

  function Pow2(k: nat): (p: nat)
    ensures p >= 1
  {
    if k == 0 then 1 else 2 * Pow2(k - 1)
  }

  lemma {:induction false} Pow2Add(a: nat, b: nat)
    ensures Pow2(a + b) == Pow2(a) * Pow2(b)
  {
    if a > 0 {
      Pow2Add(a - 1, b);
    }
  }

  lemma {:induction false} Pow2Monotone(a: nat, b: nat)
    requires a <= b
    ensures Pow2(a) <= Pow2(b)
  {
    if a < b {
      Pow2Monotone(a, b - 1);
    }
  }

  /** `x & y`: a bit is set in the result exactly when it is set in both. */
  function BitAnd(x: nat, y: nat): (r: nat)
    ensures r <= x && r <= y
  {
    if x == 0 || y == 0 then 0
    else 2 * BitAnd(x / 2, y / 2) + (if x % 2 == 1 && y % 2 == 1 then 1 else 0)
  }

  /** `x | y`: a bit is set in the result exactly when it is set in either. */
  function BitOr(x: nat, y: nat): (r: nat)
    ensures x <= r && y <= r && r <= x + y
  {
    if x == 0 then y
    else if y == 0 then x
    else 2 * BitOr(x / 2, y / 2) + (if x % 2 == 1 || y % 2 == 1 then 1 else 0)
  }

  /** Two numbers below 2^w have their union below 2^w too. */
  lemma {:induction false} BitOrBound(x: nat, y: nat, w: nat)
    requires x < Pow2(w) && y < Pow2(w)
    ensures BitOr(x, y) < Pow2(w)
  {
    if x != 0 && y != 0 {
      BitOrBound(x / 2, y / 2, w - 1);
    }
  }

  /** Byte `&`. */
  function And8(x: Octet, y: Octet): Octet {
    BitAnd(x, y)
  }

  /** Byte `|`. */
  function Or8(x: Octet, y: Octet): (r: Octet)
    ensures x <= r && y <= r
  {
    assert Pow2(8) == 0x100;
    BitOrBound(x, y, 8);
    BitOr(x, y)
  }

  /** Byte `^`: all eight bits flipped. */
  function Not8(x: Octet): (r: Octet)
    ensures x + r == 0xFF
  {
    0xFF - x
  }

  /** Masking twice is masking once. */
  lemma {:induction false} BitAndIdempotent(x: nat, y: nat)
    ensures BitAnd(BitAnd(x, y), y) == BitAnd(x, y)
  {
    if x != 0 && y != 0 {
      BitAndIdempotent(x / 2, y / 2);
    }
  }

  /** The bits from position j up to w: 2^w - 2^j. */
  function HighBits(w: nat, j: nat): (m: nat)
    requires j <= w
    ensures m + Pow2(j) == Pow2(w)
  {
    Pow2Monotone(j, w);
    Pow2(w) - Pow2(j)
  }

  lemma HighBitsHalf(w: nat, j: nat)
    requires 0 < j <= w
    ensures HighBits(w, j) % 2 == 0 && HighBits(w, j) / 2 == HighBits(w - 1, j - 1)
  {
  }

  /** A run of w low one bits keeps every bit of a number below 2^w. */
  lemma {:induction false} BitAndOnes(x: nat, w: nat)
    requires x < Pow2(w)
    ensures BitAnd(x, Pow2(w) - 1) == x
  {
    if w > 0 && x != 0 {
      BitAndOnes(x / 2, w - 1);
    }
  }

  /** Keeping the bits of x from position j up to w clears less than 2^j from it. */
  lemma {:induction false} BitAndHigh(x: nat, w: nat, j: nat)
    requires j <= w && x < Pow2(w)
    ensures x - BitAnd(x, HighBits(w, j)) < Pow2(j)
  {
    if j == 0 {
      BitAndOnes(x, w);
    } else if x != 0 && HighBits(w, j) != 0 {
      HighBitsHalf(w, j);
      BitAndHigh(x / 2, w - 1, j - 1);
    }
  }

  /** The j low bits of a are clear. */
  predicate LowClear(a: nat, j: nat) {
    j == 0 || (a % 2 == 0 && LowClear(a / 2, j - 1))
  }

  /** Masking with the bits from position j up clears the j low bits. */
  lemma {:induction false} BitAndHighClear(x: nat, w: nat, j: nat)
    requires j <= w
    ensures LowClear(BitAnd(x, HighBits(w, j)), j)
  {
    var m := HighBits(w, j);
    if j > 0 {
      HighBitsHalf(w, j);
      if x != 0 && m != 0 {
        BitAndHighClear(x / 2, w - 1, j - 1);
        assert BitAnd(x, m) / 2 == BitAnd(x / 2, m / 2);
      } else {
        ZeroClear(j);
      }
    }
  }

  lemma {:induction false} ZeroClear(j: nat)
    ensures LowClear(0, j)
  {
    if j > 0 {
      ZeroClear(j - 1);
    }
  }

  /** Setting the j low bits of a number whose j low bits are clear adds 2^j - 1. */
  lemma {:induction false} BitOrLow(a: nat, j: nat)
    requires LowClear(a, j)
    ensures BitOr(a, Pow2(j) - 1) == a + Pow2(j) - 1
  {
    if j > 0 && a != 0 {
      var low := Pow2(j) - 1;
      assert low % 2 == 1 && low / 2 == Pow2(j - 1) - 1;
      BitOrLow(a / 2, j - 1);
    }
  }
}
