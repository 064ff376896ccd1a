/** Masks and shifts on unsigned words, bit by bit. */
module Bits {

  function Pow2(n: nat): (p: nat)
    ensures p > 0
  {
    if n == 0 then 1 else 2 * Pow2(n - 1)
  }

  lemma TwiceProduct(a: nat, b: nat)
    ensures 2 * (a * b) == a * (2 * b)
  {
  }

  lemma PowStep(n: nat)
    requires n > 0
    ensures Pow2(n) == 2 * Pow2(n - 1) && (Pow2(n) - 1) / 2 == Pow2(n - 1) - 1 && (Pow2(n) - 1) % 2 == 1
  {
  }

  lemma {:induction false} PowAdd(a: nat, b: nat)
    ensures Pow2(a + b) == Pow2(a) * Pow2(b)
  {
    if b > 0 {
      hide Pow2;
      PowAdd(a, b - 1);
      PowStep(b);
      PowStep(a + b);
      TwiceProduct(Pow2(a), Pow2(b - 1));
    }
  }

  function And(a: nat, b: nat): nat {
    if a == 0 || b == 0 then 0 else 2 * And(a / 2, b / 2) + if a % 2 == 1 && b % 2 == 1 then 1 else 0
  }

  function Or(a: nat, b: nat): nat {
    if a == 0 then b else if b == 0 then a else 2 * Or(a / 2, b / 2) + if a % 2 == 1 || b % 2 == 1 then 1 else 0
  }

  function Shl(v: nat, n: nat): nat { if n == 0 then v else 2 * Shl(v, n - 1) }

  function Shr(v: nat, n: nat): nat { if n == 0 then v else Shr(v / 2, n - 1) }

  /** The lowest `n` bits. */
  function Low(v: nat, n: nat): (r: nat)
    ensures r < Pow2(n)
  {
    if n == 0 then 0 else 2 * Low(v / 2, n - 1) + v % 2
  }

  lemma {:induction false} ShlIs(v: nat, n: nat)
    ensures Shl(v, n) == v * Pow2(n)
  {
    if n > 0 {
      hide Pow2;
      ShlIs(v, n - 1);
      PowStep(n);
      TwiceProduct(v, Pow2(n - 1));
    }
  }

  /** A word is its high part, shifted, and its low part. */
  lemma {:induction false} Parts(v: nat, n: nat)
    ensures v == Shl(Shr(v, n), n) + Low(v, n)
  {
    if n > 0 { Parts(v / 2, n - 1); }
  }

  lemma {:induction false} PartsAre(high: nat, low: nat, n: nat)
    requires low < Pow2(n)
    ensures Shr(Shl(high, n) + low, n) == high && Low(Shl(high, n) + low, n) == low
  {
    if n > 0 { PartsAre(high, low / 2, n - 1); }
  }

  lemma AndStep(a: nat, b: nat)
    ensures And(a, b) == 2 * And(a / 2, b / 2) + if a % 2 == 1 && b % 2 == 1 then 1 else 0
  {
  }

  lemma OrStep(a: nat, b: nat)
    ensures Or(a, b) == 2 * Or(a / 2, b / 2) + if a % 2 == 1 || b % 2 == 1 then 1 else 0
  {
  }

  lemma Zero(v: nat)
    ensures And(v, 0) == 0 == And(0, v) && Or(v, 0) == v == Or(0, v)
  {
  }

  lemma HalfStep(v: nat, n: nat)
    requires n > 0
    ensures Shr(v, n) == Shr(v / 2, n - 1) && Shl(v, n) == 2 * Shl(v, n - 1)
    ensures Low(v, n) / 2 == Low(v / 2, n - 1) && Low(v, n) % 2 == v % 2
  {
  }

  /** Masking works on the high and the low part on their own. */
  lemma {:induction false} AndSplit(v: nat, m: nat, n: nat)
    ensures And(v, m) == Shl(And(Shr(v, n), Shr(m, n)), n) + And(Low(v, n), Low(m, n))
  {
    if n == 0 {
      Zero(0);
    } else {
      hide And, Or, Low, Shl, Shr, Pow2;
      AndSplit(v / 2, m / 2, n - 1);
      AndStep(v, m);
      AndStep(Low(v, n), Low(m, n));
      HalfStep(v, n);
      HalfStep(m, n);
      HalfStep(And(Shr(v, n), Shr(m, n)), n);
    }
  }

  lemma {:induction false} OrSplit(v: nat, m: nat, n: nat)
    ensures Or(v, m) == Shl(Or(Shr(v, n), Shr(m, n)), n) + Or(Low(v, n), Low(m, n))
  {
    if n == 0 {
      Zero(0);
    } else {
      hide And, Or, Low, Shl, Shr, Pow2;
      OrSplit(v / 2, m / 2, n - 1);
      OrStep(v, m);
      OrStep(Low(v, n), Low(m, n));
      HalfStep(v, n);
      HalfStep(m, n);
      HalfStep(Or(Shr(v, n), Shr(m, n)), n);
    }
  }

  /** A mask of ones keeps the low bits. */
  lemma {:induction false} AndOnes(v: nat, n: nat)
    ensures And(v, Pow2(n) - 1) == Low(v, n)
  {
    if n == 0 {
      Zero(v);
    } else {
      hide And, Pow2;
      AndStep(v, Pow2(n) - 1);
      PowStep(n);
      AndOnes(v / 2, n - 1);
    }
  }

  lemma {:induction false} OrOnes(v: nat, n: nat)
    requires v < Pow2(n)
    ensures Or(v, Pow2(n) - 1) == Pow2(n) - 1
  {
    if n > 0 {
      hide Or, Pow2;
      PowStep(n);
      OrStep(v, Pow2(n) - 1);
      OrOnes(v / 2, n - 1);
    }
  }

  /** A mask of ones that has been shifted picks out a digit. */
  lemma AndDigit(v: nat, n: nat, k: nat)
    ensures And(v, Shl(Pow2(k) - 1, n)) == Shl(Low(Shr(v, n), k), n)
    ensures Shr(And(v, Shl(Pow2(k) - 1, n)), n) == Low(Shr(v, n), k)
  {
    hide Or, And, Low, Shl, Shr, Pow2;
    AndSplit(v, Shl(Pow2(k) - 1, n), n);
    Zero(Low(v, n));
    PartsAre(Pow2(k) - 1, 0, n);
    AndOnes(Shr(v, n), k);
    PartsAre(Low(Shr(v, n), k), 0, n);
  }

  /** Setting the bits of a shifted mask of ones replaces the digit. */
  lemma OrDigit(v: nat, n: nat, k: nat)
    ensures Or(v, Shl(Pow2(k) - 1, n)) == Shl(Shl(Shr(Shr(v, n), k), k) + (Pow2(k) - 1), n) + Low(v, n)
  {
    hide Or, And, Low, Shl, Shr, Pow2;
    var m := Pow2(k) - 1;
    OrSplit(v, Shl(m, n), n);
    Zero(Low(v, n));
    Zero(Shr(Shr(v, n), k));
    PartsAre(m, 0, n);
    OrSplit(Shr(v, n), m, k);
    PartsAre(0, m, k);
    ShlIs(0, k);
    OrOnes(Low(Shr(v, n), k), k);
  }

  /** Putting a high and a low part together. */
  lemma OrParts(high: nat, low: nat, n: nat)
    requires low < Pow2(n)
    ensures Or(Shl(high, n), low) == Shl(high, n) + low == Or(low, Shl(high, n))
  {
    hide Or, And, Low, Shl, Shr, Pow2;
    Zero(high);
    Zero(low);
    OrSplit(Shl(high, n), low, n);
    OrSplit(low, Shl(high, n), n);
    PartsAre(high, 0, n);
    PartsAre(0, low, n);
    ShlIs(0, n);
  }
}
