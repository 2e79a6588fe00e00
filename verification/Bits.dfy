/** Bitwise operations on natural numbers by their binary digits, and what masks do. */
module Bits {

  function Pow2(k: nat): (p: nat)
    ensures p > 0
  {
    if k == 0 then 1 else 2 * Pow2(k - 1)
  }

  function And(x: nat, y: nat): nat {
    if x == 0 then 0 else (if x % 2 == 1 && y % 2 == 1 then 1 else 0) + 2 * And(x / 2, y / 2)
  }

  function Or(x: nat, y: nat): nat
    decreases x + y
  {
    if x == 0 then y
    else if y == 0 then x
    else (if x % 2 == 1 || y % 2 == 1 then 1 else 0) + 2 * Or(x / 2, y / 2)
  }

  function Xor(x: nat, y: nat): nat
    decreases x + y
  {
    if x == 0 && y == 0 then 0 else (if x % 2 == y % 2 then 0 else 1) + 2 * Xor(x / 2, y / 2)
  }

  lemma {:induction false} XorBound(x: nat, y: nat, k: nat)
    requires x < Pow2(k) && y < Pow2(k)
    ensures Xor(x, y) < Pow2(k)
    decreases k
  {
    if k > 0 {
      XorBound(x / 2, y / 2, k - 1);
    }
  }

  lemma {:induction false} XorZero(x: nat)
    ensures Xor(x, 0) == x
  {
    if x > 0 {
      XorZero(x / 2);
    }
  }

  lemma XorStep(x: nat, y: nat)
    ensures Xor(x, y) % 2 == (if x % 2 == y % 2 then 0 else 1) && Xor(x, y) / 2 == Xor(x / 2, y / 2)
  {
    var bit := if x % 2 == y % 2 then 0 else 1;
    assert Xor(x, y) == bit + 2 * Xor(x / 2, y / 2);
    hide Xor;
    Halving(bit, Xor(x / 2, y / 2));
  }

  lemma Halving(bit: nat, rest: nat)
    requires bit < 2
    ensures (bit + 2 * rest) % 2 == bit && (bit + 2 * rest) / 2 == rest
  {
  }

  /** The binary digit of x that stands for 2^j. */
  function Digit(x: nat, j: nat): (d: nat)
    ensures d < 2
    decreases j
  {
    if j == 0 then x % 2 else Digit(x / 2, j - 1)
  }

  /** What the first k digits spell. */
  function Spelt(x: nat, k: nat): nat
    decreases k
  {
    if k == 0 then 0 else Spelt(x, k - 1) + if Digit(x, k - 1) == 1 then Pow2(k - 1) else 0
  }

  lemma {:induction false} SpeltHalf(x: nat, k: nat)
    ensures Spelt(x, k + 1) == x % 2 + 2 * Spelt(x / 2, k)
  {
    if k > 0 {
      SpeltHalf(x, k - 1);
      assert Digit(x, k) == Digit(x / 2, k - 1);
    }
  }

  /** The digits spell the number. */
  lemma {:induction false} DigitsSpell(x: nat, k: nat)
    requires x < Pow2(k)
    ensures Spelt(x, k) == x
    decreases k
  {
    if k > 0 {
      SpeltHalf(x, k - 1);
      DigitsSpell(x / 2, k - 1);
    }
  }

  /** Digit by digit, one exactly where the two differ. */
  lemma {:induction false} XorDigits(x: nat, y: nat, j: nat)
    ensures Digit(Xor(x, y), j) == if Digit(x, j) == Digit(y, j) then 0 else 1
    decreases j
  {
    XorStep(x, y);
    hide Xor;
    if j > 0 {
      XorDigits(x / 2, y / 2, j - 1);
    }
  }

  /** Xoring with the same number again gives back what was there. */
  lemma {:induction false} XorTwice(x: nat, y: nat)
    ensures Xor(x, Xor(x, y)) == y
    decreases x + y
  {
    if x != 0 || y != 0 {
      XorTwice(x / 2, y / 2);
      XorStep(x, y);
      XorStep(x, Xor(x, y));
      hide Xor;
    }
  }

  /** The number that the k low bits of x spell. */
  function Low(x: nat, k: nat): nat {
    if k == 0 then 0 else 2 * Low(x / 2, k - 1) + x % 2
  }

  lemma {:induction false} LowRange(x: nat, k: nat)
    ensures Low(x, k) < Pow2(k) && Low(x, k) <= x
    ensures x < Pow2(k) ==> Low(x, k) == x
  {
    if k > 0 {
      LowRange(x / 2, k - 1);
    }
  }

  /** It is the remainder by 2^k. */
  lemma {:induction false} LowDivides(x: nat, k: nat) returns (q: nat)
    ensures x == q * Pow2(k) + Low(x, k)
  {
    if k == 0 {
      q := x;
    } else {
      q := LowDivides(x / 2, k - 1);
      assert 2 * (q * Pow2(k - 1)) == q * Pow2(k);
    }
  }

  /** Masking with k low ones keeps the k low bits. */
  lemma {:induction false} AndLow(x: nat, k: nat)
    ensures And(x, Pow2(k) - 1) == Low(x, k)
    decreases k
  {
    if k == 0 {
      AndZero(x);
    } else {
      AndLow(x / 2, k - 1);
      assert (Pow2(k) - 1) / 2 == Pow2(k - 1) - 1;
      LowRange(x, k);
    }
  }

  lemma {:induction false} AndZero(x: nat)
    ensures And(x, 0) == 0
  {
    if x > 0 {
      AndZero(x / 2);
    }
  }

  lemma AndEven(x: nat, y: nat)
    ensures And(x, 2 * y) == 2 * And(x / 2, y)
  {
  }

  /** Masking an n-bit number with everything above the k low bits clears those. */
  lemma {:induction false} AndHigh(x: nat, n: nat, k: nat)
    requires k <= n && x < Pow2(n)
    ensures Pow2(k) <= Pow2(n)
    ensures And(x, Pow2(n) - Pow2(k)) == x - Low(x, k)
    decreases n
  {
    if k == 0 {
      AndLow(x, n);
      LowRange(x, n);
    } else {
      AndHigh(x / 2, n - 1, k - 1);
      AndEven(x, Pow2(n - 1) - Pow2(k - 1));
    }
  }

  /** Numbers with no common bits: one without the k low bits and one below 2^k. */
  lemma {:induction false} OrDisjoint(a: nat, b: nat, k: nat)
    requires Low(a, k) == 0 && b < Pow2(k)
    ensures Or(a, b) == a + b && Low(a + b, k) == b
    decreases k
  {
    if k > 0 {
      OrDisjoint(a / 2, b / 2, k - 1);
      assert (a + b) / 2 == a / 2 + b / 2;
    }
  }

  lemma {:induction false} LowCleared(x: nat, k: nat)
    ensures Low(x, k) <= x && Low(x - Low(x, k), k) == 0
  {
    if k > 0 {
      LowCleared(x / 2, k - 1);
      assert (x - Low(x, k)) / 2 == x / 2 - Low(x / 2, k - 1);
    }
  }

  /** The k low bits forget multiples of 2^n for k <= n: wrap-around does not matter to them. */
  lemma {:induction false} LowOfWrapped(x: nat, n: nat, k: nat)
    requires k <= n
    ensures Low(Low(x, n), k) == Low(x, k)
  {
    if k > 0 {
      LowOfWrapped(x / 2, n - 1, k - 1);
    }
  }

  /** Adding 2^k leaves the k low bits; adding less changes them. */
  lemma {:induction false} LowAfterAdding(x: nat, d: nat, k: nat)
    requires d <= Pow2(k)
    ensures Low(x + d, k) == Low(x, k) <==> d == 0 || d == Pow2(k)
    decreases k
  {
    var q := LowDivides(x, k);
    var r := LowDivides(x + d, k);
    LowRange(x, k);
    LowRange(x + d, k);
    hide Low, Pow2;
    SameRemainder(q, r, Low(x, k), Low(x + d, k), d, Pow2(k));
  }

  lemma SameRemainder(q: nat, r: nat, a: nat, b: nat, d: nat, p: nat)
    requires q * p + a + d == r * p + b && a < p && b < p && d <= p
    ensures a == b <==> d == 0 || d == p
  {
    var t := r - q;
    assert t * p == d + a - b;
    assert t >= 2 ==> t * p >= 2 * p;
    assert t <= -1 ==> (t + 1) * p <= 0;
  }
}
