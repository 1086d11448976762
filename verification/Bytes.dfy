/**
  Bytes, and the little-endian base-256 numbers they spell.
  This is the meaning the byte order functions are held to.
 */
module Bytes {
  import opened Bits

  type Byte = b: int | 0 <= b < 256

  const TWO16: nat := 0x1_0000
  const TWO32: nat := 0x1_0000_0000
  const TWO64: nat := 0x1_0000_0000_0000_0000

  type Uint16 = x: int | 0 <= x < 0x1_0000
  type Uint32 = x: int | 0 <= x < 0x1_0000_0000
  type Uint64 = x: int | 0 <= x < 0x1_0000_0000_0000_0000

  function Pow256(n: nat): (r: nat)
    ensures r > 0
  {
    if n == 0 then 1 else 256 * Pow256(n - 1)
  }

  /** The number spelled by `s`, low byte first. */
  function Value(s: seq<Byte>): nat {
    if s == [] then 0 else s[0] + 256 * Value(s[1..])
  }

  /** The byte at `i`, widened to an integer. */
  function At(s: seq<Byte>, i: nat): (r: nat)
    requires i < |s|
    ensures r < 256
  {
    s[i]
  }

  /** The low `k` bytes of `v`, low byte first. */
  function Digits(v: nat, k: nat): (s: seq<Byte>)
    ensures |s| == k
  {
    if k == 0 then [] else [v % 256] + Digits(v / 256, k - 1)
  }

  /** `s` with the bytes from `t` on overwritten by `d`. */
  function Splice(s: seq<Byte>, t: nat, d: seq<Byte>): (r: seq<Byte>)
    requires t + |d| <= |s|
    ensures |r| == |s| && r[t..t + |d|] == d
    ensures forall i :: 0 <= i < |s| && !(t <= i < t + |d|) ==> r[i] == s[i]
  {
    s[..t] + d + s[t + |d|..]
  }

  /** The signed reading of a `k`-byte word. */
  function Signed(v: nat, k: nat): int
    requires k > 0 && v < Pow256(k)
  {
    if v < Pow256(k) / 2 then v else v - Pow256(k)
  }

  lemma {:induction false} ValueBound(s: seq<Byte>)
    ensures Value(s) < Pow256(|s|)
  {
    if s != [] {
      ValueBound(s[1..]);
    }
  }

  lemma {:induction false} DigitsOfValue(s: seq<Byte>)
    ensures Digits(Value(s), |s|) == s
  {
    if s != [] {
      var v := Value(s[1..]);
      DivModUnique(s[0] + 256 * v, 256, v, s[0]);
      DigitsOfValue(s[1..]);
    }
  }

  lemma {:induction false} ValueOfDigits(v: nat, k: nat)
    ensures Value(Digits(v, k)) == v % Pow256(k)
  {
    if k > 0 {
      ValueOfDigits(v / 256, k - 1);
      assert Digits(v, k)[1..] == Digits(v / 256, k - 1);
      LowBytes(v, Pow256(k - 1));
    }
  }

  /** The lowest byte and the bytes above it of a number modulo `256 * p`. */
  lemma LowBytes(v: nat, p: nat)
    requires p > 0
    ensures v % (256 * p) == v % 256 + 256 * (v / 256 % p)
  {
    var q, r := v / 256, v % 256;
    var a, b := q / p, q % p;
    MulCommute(a, p);
    MulAssoc(256, a, p);
    MulCommute(a, 256);
    MulAssoc(a, 256, p);
    DivModUnique(v, 256 * p, a, 256 * b + r);
  }

  /** Base-256 numerals of one length are unique. */
  lemma ValueInjective(s: seq<Byte>, t: seq<Byte>)
    requires |s| == |t| && Value(s) == Value(t)
    ensures s == t
  {
    DigitsOfValue(s);
    DigitsOfValue(t);
  }

  /** Storing a number that fits and loading it again. */
  lemma StoreThenLoad(v: nat, k: nat)
    requires v < Pow256(k)
    ensures Value(Digits(v, k)) == v
  {
    ValueOfDigits(v, k);
    DivModUnique(v, Pow256(k), 0, v);
  }

  lemma {:induction false} ValueConcat(s: seq<Byte>, t: seq<Byte>)
    ensures Value(s + t) == Value(s) + Pow256(|s|) * Value(t)
  {
    if s == [] {
      assert s + t == t;
    } else {
      ValueConcat(s[1..], t);
      assert (s + t)[1..] == s[1..] + t;
      MulAssoc(256, Pow256(|s| - 1), Value(t));
    }
  }

  lemma Pow256Values()
    ensures Pow256(1) == 0x100 && Pow256(2) == TWO16 && Pow256(3) == 0x100_0000
    ensures Pow256(4) == TWO32 && Pow256(5) == 0x100_0000_0000
    ensures Pow256(6) == 0x1_0000_0000_0000 && Pow256(8) == TWO64
  {
    assert Pow256(2) == 256 * Pow256(1);
    assert Pow256(3) == 256 * Pow256(2);
    assert Pow256(4) == 256 * Pow256(3);
    assert Pow256(5) == 256 * Pow256(4);
    assert Pow256(6) == 256 * Pow256(5);
    assert Pow256(7) == 256 * Pow256(6);
  }

  /** The value of up to four bytes, written out. */
  lemma ValueOf1(s: seq<Byte>)
    requires |s| == 1
    ensures Value(s) == At(s, 0)
  {
    assert s[1..] == [];
  }

  lemma ValueOf2(s: seq<Byte>)
    requires |s| == 2
    ensures Value(s) == At(s, 0) + 0x100 * At(s, 1)
  {
    assert Value(s[1..]) == s[1] + 256 * Value(s[1..][1..]);
  }

  lemma ValueOf3(s: seq<Byte>)
    requires |s| == 3
    ensures Value(s) == At(s, 0) + 0x100 * At(s, 1) + 0x1_0000 * At(s, 2)
  {
    ValueOf2(s[1..]);
  }

  lemma ValueOf4(s: seq<Byte>)
    requires |s| == 4
    ensures Value(s) == At(s, 0) + 0x100 * At(s, 1) + 0x1_0000 * At(s, 2) + 0x100_0000 * At(s, 3)
  {
    ValueOf3(s[1..]);
  }

  /** The bytes of a number, written out. */
  lemma DigitsAt(v: nat, k: nat, i: nat)
    requires i < k
    ensures Digits(v, k)[i] == v / Pow256(i) % 256
  {
    if i > 0 {
      DigitsAt(v / 256, k - 1, i - 1);
      DivDiv(v, 256, Pow256(i - 1));
    }
  }
}
