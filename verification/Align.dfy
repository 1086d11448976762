/**
  `MY_ALIGN`: rounding a size or an address up to a power-of-two boundary,
  in unsigned arithmetic of `w` bits.
 */
module Align {
  import opened Bits

  /** `((A) + (L) - 1) & ~((L) - 1)`; the sum wraps at `w` bits. */
  function MyAlign(a: nat, l: nat, w: nat): (r: nat)
    requires 0 < l < Pow2(w)
  {
    BitAnd((a + l - 1) % Pow2(w), BitNot(l - 1, w))
  }

  predicate Multiple(m: nat, l: nat)
    requires l > 0
  {
    m % l == 0
  }

  /** A number as a quotient times `l` plus a remainder below `l`. */
  lemma Split(s: nat, l: nat) returns (q: nat, r: nat)
    requires l > 0
    ensures q == s / l && r == s % l && s == q * l + r && r < l
  {
    q, r := s / l, s % l;
    MulCommute(q, l);
  }

  lemma MultipleOf(q: nat, l: nat)
    requires l > 0
    ensures q * l >= 0 && Multiple(q * l, l)
  {
    MulMonotone(0, q, l);
    DivModUnique(q * l, l, q, 0);
  }

  /** A multiple of `l` that is above `q * l - l` is at least `q * l`. */
  lemma NextMultiple(m: nat, q: nat, l: nat)
    requires l > 0 && Multiple(m, l) && m > q * l - l
    ensures m >= q * l
  {
    var d, r := Split(m, l);
    if d < q {
      MulMonotone(d, q - 1, l);
      MulDistribute(q - 1, 1, l);
    }
  }

  /** Rounding down `a + l - 1` is rounding up `a`. */
  lemma RoundUp(a: nat, l: nat) returns (r: nat)
    requires l > 0
    ensures r == (a + l - 1) / l * l && Multiple(r, l) && a <= r < a + l
    ensures forall m: nat | Multiple(m, l) && a <= m :: r <= m
  {
    var q, d := Split(a + l - 1, l);
    r := q * l;
    MultipleOf(q, l);
    forall m: nat | Multiple(m, l) && a <= m
      ensures r <= m
    {
      NextMultiple(m, q, l);
    }
  }

  /** The value of the mask expression, as a quotient. */
  lemma AlignValue(a: nat, k: nat, w: nat)
    requires k < w
    ensures Pow2(k) < Pow2(w)
    ensures MyAlign(a, Pow2(k), w) == (a + Pow2(k) - 1) % Pow2(w) / Pow2(k) * Pow2(k)
  {
    Pow2Monotone(k, w - 1);
    AndClearLow((a + Pow2(k) - 1) % Pow2(w), k, w);
  }

  /** When the sum fits, the result rounds the argument up. */
  lemma AlignFits(a: nat, k: nat, w: nat)
    requires k < w && a + Pow2(k) - 1 < Pow2(w)
    ensures Pow2(k) < Pow2(w)
    ensures MyAlign(a, Pow2(k), w) == (a + Pow2(k) - 1) / Pow2(k) * Pow2(k)
  {
    AlignValue(a, k, w);
    DivModUnique(a + Pow2(k) - 1, Pow2(w), 0, a + Pow2(k) - 1);
  }

  /** When the sum wraps, the result is zero. */
  lemma AlignOverflow(a: nat, k: nat, w: nat)
    requires k < w && a < Pow2(w) <= a + Pow2(k) - 1
    ensures Pow2(k) < Pow2(w) && MyAlign(a, Pow2(k), w) == 0
  {
    AlignValue(a, k, w);
    var l, s := Pow2(k), a + Pow2(k) - 1;
    DivModUnique(s, Pow2(w), 1, s - Pow2(w));
    DivModUnique(s - Pow2(w), l, 0, s - Pow2(w));
  }

  /**
    For every power of two, `MY_ALIGN` is at least its argument exactly when the
    sum fits the word; it is then the least multiple that is.
   */
  lemma AlignIsLeastMultiple(a: nat, k: nat, w: nat)
    requires k < w && a < Pow2(w)
    ensures Pow2(k) < Pow2(w)
    ensures Multiple(MyAlign(a, Pow2(k), w), Pow2(k))
    ensures a <= MyAlign(a, Pow2(k), w) <==> a + Pow2(k) - 1 < Pow2(w)
    ensures a + Pow2(k) - 1 < Pow2(w) ==>
              forall m: nat | Multiple(m, Pow2(k)) && a <= m :: MyAlign(a, Pow2(k), w) <= m
  {
    if a + Pow2(k) - 1 < Pow2(w) {
      AlignFits(a, k, w);
      var r := RoundUp(a, Pow2(k));
    } else {
      AlignOverflow(a, k, w);
      MultipleOf(0, Pow2(k));
    }
  }

  /** Aligning twice is aligning once, even when the second sum could have wrapped. */
  lemma AlignIdempotent(a: nat, k: nat, w: nat)
    requires k < w && a < Pow2(w)
    ensures Pow2(k) < Pow2(w)
    ensures MyAlign(MyAlign(a, Pow2(k), w), Pow2(k), w) == MyAlign(a, Pow2(k), w)
  {
    AlignIsLeastMultiple(a, k, w);
    var r := MyAlign(a, Pow2(k), w);
    WordMultiple(r, k, w);
    AlignIsLeastMultiple(r, k, w);
  }

  /** A multiple of `Pow2(k)` inside the word leaves room for `Pow2(k) - 1` more. */
  lemma WordMultiple(r: nat, k: nat, w: nat)
    requires k < w && r < Pow2(w) && Multiple(r, Pow2(k))
    ensures r + Pow2(k) - 1 < Pow2(w)
  {
    PowMultiple(k, w);
    var l := Pow2(k);
    var q, _ := Split(r, l);
    var p, _ := Split(Pow2(w), l);
    if q >= p {
      MulMonotone(p, q, l);
    }
    MulMonotone(q + 1, p, l);
    MulDistribute(q, 1, l);
  }

  lemma {:induction false} PowMultiple(k: nat, w: nat)
    requires k <= w
    ensures Multiple(Pow2(w), Pow2(k))
    decreases w
  {
    var l := Pow2(k);
    if k == w {
      DivModUnique(l, l, 1, 0);
    } else {
      PowMultiple(k, w - 1);
      var q, _ := Split(Pow2(w - 1), l);
      assert Pow2(w) == (2 * q) * l by { MulAssoc(2, q, l); }
      DivModUnique(Pow2(w), l, 2 * q, 0);
    }
  }

  /** Aligning keeps the order of sizes that fit. */
  lemma AlignMonotone(a: nat, b: nat, k: nat, w: nat)
    requires k < w && a <= b && b + Pow2(k) - 1 < Pow2(w)
    ensures Pow2(k) < Pow2(w)
    ensures MyAlign(a, Pow2(k), w) <= MyAlign(b, Pow2(k), w)
  {
    AlignIsLeastMultiple(a, k, w);
    AlignIsLeastMultiple(b, k, w);
  }
}
