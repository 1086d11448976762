/**
  Bitwise operators of unsigned machine words, on natural numbers.
  A word of `w` bits is a number below `Pow2(w)`.
 */
module Bits {

  function Pow2(n: nat): (r: nat)
    ensures r > 0
  {
    if n == 0 then 1 else 2 * Pow2(n - 1)
  }

  /** `a & b`, one binary digit at a time. */
  function BitAnd(a: nat, b: nat): (r: nat)
    ensures r <= a && r <= b
    decreases a
  {
    if a == 0 then 0
    else 2 * BitAnd(a / 2, b / 2) + (if a % 2 == 1 && b % 2 == 1 then 1 else 0)
  }

  /** `a | b`, one binary digit at a time. */
  function BitOr(a: nat, b: nat): (r: nat)
    ensures a <= r && b <= r
    decreases a + b
  {
    if a == 0 && b == 0 then 0
    else 2 * BitOr(a / 2, b / 2) + (if a % 2 == 1 || b % 2 == 1 then 1 else 0)
  }

  /** `~a` in a word of `w` bits. */
  function BitNot(a: nat, w: nat): (r: nat)
    requires a < Pow2(w)
    ensures r < Pow2(w) && r + a == Pow2(w) - 1
  {
    Pow2(w) - 1 - a
  }

  /** Binary digit `k` of `a`. */
  predicate TestBit(a: nat, k: nat) {
    a / Pow2(k) % 2 == 1
  }

  lemma MulMonotone(a: int, b: int, m: nat)
    requires a <= b
    ensures a * m <= b * m
  {
  }

  lemma MulAssoc(a: int, b: int, c: int)
    ensures (a * b) * c == a * (b * c)
  {
  }

  lemma MulDistribute(a: int, b: int, c: int)
    ensures (a + b) * c == a * c + b * c
  {
  }

  lemma MulCommute(a: int, b: int)
    ensures a * b == b * a
  {
  }

  /** Quotient and remainder are the only pair with these properties. */
  lemma DivModUnique(v: int, m: int, q: int, r: int)
    requires 0 <= r < m && v == q * m + r
    ensures v / m == q && v % m == r
  {
    var q', r' := v / m, v % m;
    MulCommute(q', m);
    assert v == q' * m + r';
    if q' > q {
      MulMonotone(q + 1, q', m);
      MulDistribute(q, 1, m);
    } else if q' < q {
      MulMonotone(q' + 1, q, m);
      MulDistribute(q', 1, m);
    }
  }

  lemma DivDiv(a: nat, m: nat, n: nat)
    requires m > 0 && n > 0
    ensures m * n > 0
    ensures a / m / n == a / (m * n)
  {
    var q, r := a / m, a % m;
    var q', r' := q / n, q % n;
    assert a == q * m + r by { MulCommute(q, m); }
    assert q == q' * n + r' by { MulCommute(q', n); }
    calc {
      q * m;
      { MulDistribute(q' * n, r', m); }
      (q' * n) * m + r' * m;
      { MulAssoc(q', n, m); MulCommute(n, m); }
      q' * (m * n) + r' * m;
    }
    MulMonotone(r' + 1, n, m);
    MulDistribute(r', 1, m);
    MulCommute(n, m);
    DivModUnique(a, m * n, q', r' * m + r);
  }

  lemma {:induction false} Pow2Monotone(k: nat, w: nat)
    requires k <= w
    ensures Pow2(k) <= Pow2(w)
    decreases w
  {
    if k < w {
      Pow2Monotone(k, w - 1);
    }
  }

  /** Testing one flag with `&` reads one binary digit. */
  lemma {:induction false} AndFlag(a: nat, k: nat)
    ensures BitAnd(a, Pow2(k)) == (if TestBit(a, k) then Pow2(k) else 0)
    decreases k
  {
    if a == 0 {
      DivModUnique(0, Pow2(k), 0, 0);
    } else if k == 0 {
      assert BitAnd(a / 2, 0) == 0;
    } else {
      var p := Pow2(k - 1);
      AndFlag(a / 2, k - 1);
      DivDiv(a, 2, p);
      assert TestBit(a, k) == TestBit(a / 2, k - 1);
      AndEven(a, p);
    }
  }

  /** `&` with the complement of a mask of `k` low ones clears the low `k` digits. */
  lemma {:induction false} AndClearLow(a: nat, k: nat, w: nat)
    requires k <= w && a < Pow2(w)
    ensures Pow2(k) - 1 < Pow2(w)
    ensures BitAnd(a, BitNot(Pow2(k) - 1, w)) == a / Pow2(k) * Pow2(k)
    decreases k, w
  {
    Pow2Monotone(k, w);
    if k == 0 {
      ClearNothing(a, w);
    } else {
      AndClearLow(a / 2, k - 1, w - 1);
      ClearOneMore(a, k, w);
    }
  }

  lemma ClearNothing(a: nat, w: nat)
    requires a < Pow2(w)
    ensures BitAnd(a, BitNot(Pow2(0) - 1, w)) == a / Pow2(0) * Pow2(0)
  {
    AndAllOnes(a, w);
    assert a / 1 * 1 == a;
  }

  lemma ClearOneMore(a: nat, k: nat, w: nat)
    requires 0 < k <= w && Pow2(k) <= Pow2(w) && Pow2(k - 1) <= Pow2(w - 1)
    requires BitAnd(a / 2, BitNot(Pow2(k - 1) - 1, w - 1)) == a / 2 / Pow2(k - 1) * Pow2(k - 1)
    ensures BitAnd(a, BitNot(Pow2(k) - 1, w)) == a / Pow2(k) * Pow2(k)
  {
    EvenMask(k, w);
    AndEven(a, BitNot(Pow2(k - 1) - 1, w - 1));
    HalfMultiple(a, Pow2(k - 1));
  }

  /** The mask that clears at least one digit is twice the mask that clears one digit less. */
  lemma EvenMask(k: nat, w: nat)
    requires 0 < k <= w && Pow2(k) <= Pow2(w) && Pow2(k - 1) <= Pow2(w - 1)
    ensures BitNot(Pow2(k) - 1, w) == 2 * BitNot(Pow2(k - 1) - 1, w - 1)
  {
    var p, q := Pow2(k - 1), Pow2(w - 1);
    assert Pow2(k) == 2 * p && Pow2(w) == 2 * q;
  }

  /** An even mask clears the lowest digit. */
  lemma AndEven(a: nat, b: nat)
    ensures BitAnd(a, 2 * b) == 2 * BitAnd(a / 2, b)
  {
    assert 2 * b / 2 == b;
  }

  lemma HalfMultiple(a: nat, p: nat)
    requires p > 0
    ensures 2 * (a / 2 / p * p) == a / (2 * p) * (2 * p)
  {
    DivDiv(a, 2, p);
    var q := a / (2 * p);
    MulAssoc(q, 2, p);
    MulCommute(q, 2);
    MulAssoc(2, q, p);
  }

  lemma {:induction false} AndAllOnes(a: nat, w: nat)
    requires a < Pow2(w)
    ensures BitAnd(a, Pow2(w) - 1) == a
  {
    if a != 0 {
      AndAllOnes(a / 2, w - 1);
    }
  }

  /** `|` of words with no common digit position is their sum. */
  lemma {:induction false} OrDisjoint(hi: nat, lo: nat, k: nat)
    requires lo < Pow2(k)
    ensures BitOr(hi * Pow2(k), lo) == hi * Pow2(k) + lo
  {
    if k == 0 {
      OrZero(hi);
    } else {
      OrDisjoint(hi, lo / 2, k - 1);
      var h := hi * Pow2(k - 1);
      assert hi * Pow2(k) == 2 * h by {
        MulAssoc(hi, 2, Pow2(k - 1)); MulCommute(hi, 2); MulAssoc(2, hi, Pow2(k - 1));
      }
      assert BitOr(2 * h, lo) == 2 * BitOr(h, lo / 2) + lo % 2;
    }
  }

  lemma {:induction false} OrZero(a: nat)
    ensures BitOr(a, 0) == a
  {
    if a != 0 {
      OrZero(a / 2);
    }
  }
}
