/** Unsigned words as natural numbers: shifts and bitwise operators written out bit by bit,
    and what the masks `Pow(2, d) - 1` of the source select. Everything recurses on the lowest
    bit, so all arithmetic stays linear. */
module Bits {

  function Pow2(n: nat): (r: nat)
    ensures r > 0
  {
    if n == 0 then 1 else 2 * Pow2(n - 1)
  }

  function And(a: nat, b: nat): nat {
    if a == 0 then 0 else (if a % 2 == 1 && b % 2 == 1 then 1 else 0) + 2 * And(a / 2, b / 2)
  }

  function Or(a: nat, b: nat): nat
    decreases a + b
  {
    if a == 0 && b == 0 then 0
    else (if a % 2 == 1 || b % 2 == 1 then 1 else 0) + 2 * Or(a / 2, b / 2)
  }

  function Xor(a: nat, b: nat): nat
    decreases a + b
  {
    if a == 0 && b == 0 then 0
    else (if a % 2 != b % 2 then 1 else 0) + 2 * Xor(a / 2, b / 2)
  }

  function Shr(a: nat, n: nat): nat {
    if n == 0 then a else Shr(a / 2, n - 1)
  }

  function Shl(a: nat, n: nat): nat {
    if n == 0 then a else 2 * Shl(a, n - 1)
  }

  /** The low `d` bits of `a`. */
  function Low(a: nat, d: nat): (r: nat)
    ensures r < Pow2(d)
  {
    if d == 0 then 0 else a % 2 + 2 * Low(a / 2, d - 1)
  }

  /** `a` and `b` agree on their low `d` bits. */
  predicate Same(a: nat, b: nat, d: nat) {
    Low(a, d) == Low(b, d)
  }

  /** `h & (2^d - 1)` keeps the low `d` bits. */
  lemma {:induction false} AndMask(h: nat, d: nat)
    ensures And(h, Pow2(d) - 1) == Low(h, d)
  {
    if d == 0 {
      AndZero(h);
    } else if h == 0 {
      LowSmall(0, d);
    } else {
      AndMask(h / 2, d - 1);
      assert (Pow2(d) - 1) % 2 == 1 && (Pow2(d) - 1) / 2 == Pow2(d - 1) - 1;
    }
  }

  lemma {:induction false} AndZero(h: nat)
    ensures And(h, 0) == 0
  {
    if h != 0 { AndZero(h / 2); }
  }

  /** Where no bit overlaps, `|` adds. */
  lemma {:induction false} OrAdds(h: nat, k: nat, low: nat)
    requires low < Pow2(k)
    ensures Or(Shl(h, k), low) == Shl(h, k) + low
  {
    if k == 0 {
      OrZero(h);
    } else if h > 0 || low > 0 {
      OrAdds(h, k - 1, low / 2);
    } else {
      ShlZero(k);
    }
  }

  lemma {:induction false} OrZero(a: nat)
    ensures Or(a, 0) == a
  {
    if a != 0 { OrZero(a / 2); }
  }

  lemma {:induction false} ShlZero(k: nat)
    ensures Shl(0, k) == 0
  {
    if k > 0 { ShlZero(k - 1); }
  }

  lemma {:induction false} XorZero(a: nat, b: nat)
    ensures Xor(a, b) == 0 <==> a == b
    decreases a + b
  {
    if a != 0 || b != 0 { XorZero(a / 2, b / 2); }
  }

  lemma {:induction false} LowSmall(a: nat, d: nat)
    requires a < Pow2(d)
    ensures Low(a, d) == a
  {
    if d > 0 { LowSmall(a / 2, d - 1); }
  }

  lemma {:induction false} LowLow(a: nat, d: nat, e: nat)
    requires d <= e
    ensures Low(Low(a, e), d) == Low(a, d)
    decreases d
  {
    if d > 0 { LowLow(a / 2, d - 1, e - 1); }
  }

  lemma {:induction false} PowMono(d: nat, e: nat)
    requires d <= e
    ensures Pow2(d) <= Pow2(e)
    ensures d < e ==> Pow2(d) < Pow2(e)
  {
    if d < e { PowMono(d, e - 1); }
  }

  lemma SameWeaken(a: nat, b: nat, d: nat, e: nat)
    requires d <= e && Same(a, b, e)
    ensures Same(a, b, d)
  {
    LowLow(a, d, e);
    LowLow(b, d, e);
  }

  /** Bit `d` of `a` sits on top of its low `d` bits. */
  lemma {:induction false} NextBit(a: nat, d: nat)
    ensures Low(a, d + 1) == Low(a, d) + (if Shr(a, d) % 2 == 1 then Pow2(d) else 0)
  {
    if d > 0 { NextBit(a / 2, d - 1); } else { assert Low(a, 1) == a % 2 + 2 * Low(a / 2, 0); }
  }

  lemma {:induction false} LowShl(h: nat, k: nat, low: nat)
    requires low < Pow2(k)
    ensures Low(Shl(h, k) + low, k + 1) == low + (if h % 2 == 1 then Pow2(k) else 0)
  {
    if k > 0 { LowShl(h, k - 1, low / 2); } else { assert Low(h, 1) == h % 2 + 2 * Low(h / 2, 0); }
  }
}
