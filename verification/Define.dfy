/**
  The arithmetic macros of define.h.
 */
module Define {

  /** safe_min */
  function Min(a: int, b: int): int {
    if a < b then a else b
  }

  /** safe_max */
  function Max(a: int, b: int): int {
    if a < b then b else a
  }

  /** A number as it comes out of 32-bit signed arithmetic. */
  function Int32(x: int): (r: int)
    ensures -0x8000_0000 <= r < 0x8000_0000
    ensures -0x8000_0000 <= x < 0x8000_0000 ==> r == x
  {
    (x + 0x8000_0000) % 0x1_0000_0000 - 0x8000_0000
  }

  /** ROUNDNUM2 for a power of two num: adding num - 1 and clearing the low bits. */
  function RoundNum2(value: int, num: int): int
    requires 0 < num
  {
    (value + (num - 1)) / num * num
  }

  /** The result is the least multiple of num at or above the value. */
  lemma RoundNum2Least(value: int, num: int)
    requires 0 < num
    ensures value <= RoundNum2(value, num) < value + num
    ensures forall k :: value <= k * num ==> RoundNum2(value, num) <= k * num
  {
    var q, r := (value + (num - 1)) / num, (value + (num - 1)) % num;
    assert value + (num - 1) == q * num + r;
    forall k | value <= k * num ensures q * num <= k * num {
      if k < q { Multiples(k, q, num); }
    }
  }

  lemma {:induction false} Multiples(k: int, q: int, num: int)
    requires 0 < num && k < q
    ensures k * num + num <= q * num
    decreases q - k
  {
    if k + 1 < q { Multiples(k, q - 1, num); }
    assert q * num == (q - 1) * num + num;
  }

  function Pow2(k: nat): (p: nat)
    ensures p > 0
  {
    if k == 0 then 1 else 2 * Pow2(k - 1)
  }

  /** The bitwise conjunction of two numbers. */
  function And(a: nat, b: nat): nat {
    if a == 0 || b == 0 then 0 else 2 * And(a / 2, b / 2) + (a % 2) * (b % 2)
  }

  /** Clearing the k low bits of a w-bit number with the mask ~(2^k - 1). */
  lemma {:induction false} MaskClears(x: nat, w: nat, k: nat)
    requires x < Pow2(w) && k <= w
    ensures Pow2(k) <= Pow2(w) && And(x, Pow2(w) - Pow2(k)) == x / Pow2(k) * Pow2(k)
    decreases w
  {
    hide And;
    if w == 0 {
      AndZero(x);
    } else if k > 0 {
      var m := Pow2(w - 1) - Pow2(k - 1);
      MaskClears(x / 2, w - 1, k - 1);
      AndEven(x, m);
      HalfTwice(x, Pow2(k - 1));
    } else {
      MaskClears(x / 2, w - 1, 0);
      AndOdd(x, Pow2(w - 1) - 1);
    }
  }

  lemma AndZero(x: nat)
    ensures And(x, 0) == 0
  {
  }

  lemma Halves(m: nat)
    ensures 2 * m / 2 == m && 2 * m % 2 == 0 && (2 * m + 1) / 2 == m && (2 * m + 1) % 2 == 1
  {
  }

  lemma AndEven(x: nat, m: nat)
    ensures And(x, 2 * m) == 2 * And(x / 2, m)
  {
    Halves(m);
    var b := 2 * m;
    assert And(x, b) == if x == 0 || b == 0 then 0 else 2 * And(x / 2, m) + (x % 2) * 0;
  }

  lemma AndOdd(x: nat, m: nat)
    ensures And(x, 2 * m + 1) == 2 * And(x / 2, m) + x % 2
  {
    Halves(m);
    var b := 2 * m + 1;
    assert And(x, b) == if x == 0 then 0 else 2 * And(x / 2, m) + (x % 2) * 1;
  }

  lemma HalfTwice(x: nat, p: nat)
    requires 0 < p
    ensures x / (2 * p) == x / 2 / p && x / (2 * p) * (2 * p) == 2 * (x / 2 / p * p)
  {
    var q, r := x / 2 / p, x / 2 % p;
    assert x / 2 == q * p + r;
    var s := 2 * r + x % 2;
    assert x == q * (2 * p) + s && 0 <= s < 2 * p;
    DivUnique(x, 2 * p, q, s);
  }

  lemma DivUnique(x: nat, d: nat, q: nat, r: nat)
    requires x == q * d + r && r < d
    ensures x / d == q
  {
    var e := x / d - q;
    assert x == x / d * d + x % d;
    if e > 0 { Multiples(q, x / d, d); }
    if e < 0 { Multiples(x / d, q, d); }
  }

  /** The macro as it stands, on w-bit numbers that do not overflow: rounding up
      to the least multiple of a power of two. */
  lemma MaskRounds(value: nat, w: nat, k: nat)
    requires k <= w && value + (Pow2(k) - 1) < Pow2(w)
    ensures Pow2(k) <= Pow2(w) && And(value + (Pow2(k) - 1), Pow2(w) - Pow2(k)) == RoundNum2(value, Pow2(k))
  {
    MaskClears(value + (Pow2(k) - 1), w, k);
  }
}
