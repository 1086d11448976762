/**
  The machine-independent integer format (low byte first): the loads `*korr` and
  the stores `int*store`, in the arithmetic of fixed-width C integers.
  A load reads memory `m` at offset `p`; a store writes buffer `buf` at offset `t`.
 */
module ByteOrder {
  import opened Bits
  import opened Bytes

  /** A result truncated to `uint16`, `uint32`, `ulonglong`, `uchar`. */
  function U16(x: nat): Uint16 { x % 0x1_0000 }
  function U32(x: nat): Uint32 { x % 0x1_0000_0000 }
  function U64(x: nat): Uint64 { x % 0x1_0000_0000_0000_0000 }
  function Uchar(x: nat): Byte { x % 256 }

  /** A result wrapped to `int16`, `int32`, `longlong`. */
  function I16(x: int): int { (x + 0x8000) % 0x1_0000 - 0x8000 }
  function I32(x: int): int { (x + 0x8000_0000) % 0x1_0000_0000 - 0x8000_0000 }
  function I64(x: int): int { (x + 0x8000_0000_0000_0000) % 0x1_0000_0000_0000_0000 - 0x8000_0000_0000_0000 }

  // ---------- portable loads ----------

  function Uint2korr(m: seq<Byte>, p: nat): (r: nat)
    requires p + 2 <= |m|
    ensures r == Value(m[p..p + 2])
  {
    ValueOf2(m[p..p + 2]);
    U16(At(m, p) + U32(At(m, p + 1) * 0x100))
  }

  function Sint2korr(m: seq<Byte>, p: nat): (r: int)
    requires p + 2 <= |m|
    ensures Value(m[p..p + 2]) < Pow256(2)
    ensures r == Signed(Value(m[p..p + 2]), 2)
  {
    ValueOf2(m[p..p + 2]);
    ValueBound(m[p..p + 2]);
    Pow256Values();
    I16(I32(At(m, p) + I32(At(m, p + 1) * 0x100)))
  }

  function Uint3korr(m: seq<Byte>, p: nat): (r: nat)
    requires p + 3 <= |m|
    ensures r == Value(m[p..p + 3])
  {
    ValueOf3(m[p..p + 3]);
    NoCarry3(At(m, p), At(m, p + 1), At(m, p + 2));
    U32(At(m, p) + U32(At(m, p + 1) * 0x100) + U32(At(m, p + 2) * 0x1_0000))
  }

  lemma NoCarry3(a: nat, b: nat, c: nat)
    requires a < 256 && b < 256 && c < 256
    ensures U32(a + U32(b * 0x100) + U32(c * 0x1_0000)) == a + 0x100 * b + 0x1_0000 * c
  {
  }

  /** The four-byte sum that several loads share. */
  function Low4(m: seq<Byte>, p: nat): (r: nat)
    requires p + 4 <= |m|
    ensures r == Value(m[p..p + 4]) && r < TWO32
  {
    ValueOf4(m[p..p + 4]);
    NoCarry4(At(m, p), At(m, p + 1), At(m, p + 2), At(m, p + 3));
    U32(At(m, p) + U32(At(m, p + 1) * 0x100) + U32(At(m, p + 2) * 0x1_0000) + U32(At(m, p + 3) * 0x100_0000))
  }

  lemma NoCarry4(a: nat, b: nat, c: nat, d: nat)
    requires a < 256 && b < 256 && c < 256 && d < 256
    ensures U32(a + U32(b * 0x100) + U32(c * 0x1_0000) + U32(d * 0x100_0000))
         == a + 0x100 * b + 0x1_0000 * c + 0x100_0000 * d
  {
  }

  function Uint4korr(m: seq<Byte>, p: nat): (r: nat)
    requires p + 4 <= |m|
    ensures r == Value(m[p..p + 4])
  {
    U32(Low4(m, p))
  }

  function Sint4korr(m: seq<Byte>, p: nat): (r: int)
    requires p + 4 <= |m|
    ensures Value(m[p..p + 4]) < Pow256(4)
    ensures r == Signed(Value(m[p..p + 4]), 4)
  {
    Sint4Meaning(m, p);
    I32(At(m, p) + I32(At(m, p + 1) * 0x100) + I32(At(m, p + 2) * 0x1_0000) + I32(At(m, p + 3) * 0x100_0000))
  }

  lemma Sint4Meaning(m: seq<Byte>, p: nat)
    requires p + 4 <= |m|
    ensures Value(m[p..p + 4]) < Pow256(4)
    ensures I32(At(m, p) + I32(At(m, p + 1) * 0x100) + I32(At(m, p + 2) * 0x1_0000) + I32(At(m, p + 3) * 0x100_0000))
         == Signed(Value(m[p..p + 4]), 4)
  {
    var s := m[p..p + 4];
    ValueOf4(s);
    assert At(s, 0) == At(m, p) && At(s, 1) == At(m, p + 1) && At(s, 2) == At(m, p + 2) && At(s, 3) == At(m, p + 3);
    WrapSigned(s);
    SmallParts(At(s, 1), At(s, 2));
    WrapSum(At(s, 0) + At(s, 1) * 0x100 + At(s, 2) * 0x1_0000, At(s, 3) * 0x100_0000);
  }

  lemma SmallParts(b: nat, c: nat)
    requires b < 256 && c < 256
    ensures I32(b * 0x100) == b * 0x100 && I32(c * 0x1_0000) == c * 0x1_0000
  {
  }

  lemma WrapSum(a: int, b: int)
    ensures I32(a + I32(b)) == I32(a + b)
  {
  }

  /** Wrapping a four-byte value to `int32` is reading it as a signed word. */
  lemma WrapSigned(s: seq<Byte>)
    requires |s| == 4
    ensures Value(s) < Pow256(4) && I32(Value(s)) == Signed(Value(s), 4)
  {
    ValueBound(s);
    Pow256Values();
  }

  /** A long word as its low four bytes and the rest. */
  lemma LowHigh(m: seq<Byte>, p: nat, k: nat)
    requires 4 <= k && p + k <= |m|
    ensures Value(m[p..p + k]) == Value(m[p..p + 4]) + TWO32 * Value(m[p + 4..p + k])
    ensures Value(m[p + 4..p + k]) < Pow256(k - 4)
  {
    assert m[p..p + k] == m[p..p + 4] + m[p + 4..p + k];
    ValueConcat(m[p..p + 4], m[p + 4..p + k]);
    ValueBound(m[p + 4..p + k]);
    Pow256Values();
  }

  /** No carry is lost when the halves of a long word are added. */
  lemma NoCarry(low: nat, high: nat)
    requires low < TWO32 && high < TWO32
    ensures U64(low + U64(high * 0x1_0000_0000)) == low + TWO32 * high
  {
    assert high * 0x1_0000_0000 < TWO64;
  }

  lemma NoCarry6(low: nat, e: nat, f: nat)
    requires low < TWO32 && e < 256 && f < 256
    ensures U64(low + U64(e * 0x1_0000_0000) + U64(f * 0x100_0000_0000)) == low + TWO32 * (e + 0x100 * f)
  {
  }

  function Uint5korr(m: seq<Byte>, p: nat): (r: nat)
    requires p + 5 <= |m|
    ensures r == Value(m[p..p + 5])
  {
    LowHigh(m, p, 5);
    ValueOf1(m[p + 4..p + 5]);
    NoCarry(Low4(m, p), At(m, p + 4));
    U64(Low4(m, p) + U64(At(m, p + 4) * 0x1_0000_0000))
  }

  function Uint6korr(m: seq<Byte>, p: nat): (r: nat)
    requires p + 6 <= |m|
    ensures r == Value(m[p..p + 6])
  {
    LowHigh(m, p, 6);
    ValueOf2(m[p + 4..p + 6]);
    NoCarry6(Low4(m, p), At(m, p + 4), At(m, p + 5));
    U64(Low4(m, p) + U64(At(m, p + 4) * 0x1_0000_0000) + U64(At(m, p + 5) * 0x100_0000_0000))
  }

  function Uint8korr(m: seq<Byte>, p: nat): (r: nat)
    requires p + 8 <= |m|
    ensures r == Value(m[p..p + 8])
  {
    LowHigh(m, p, 8);
    NoCarry(Low4(m, p), Low4(m, p + 4));
    U64(Low4(m, p) + U64(Low4(m, p + 4) * 0x1_0000_0000))
  }

  function Sint8korr(m: seq<Byte>, p: nat): (r: int)
    requires p + 8 <= |m|
    ensures Value(m[p..p + 8]) < Pow256(8)
    ensures r == Signed(Value(m[p..p + 8]), 8)
  {
    ValueBound(m[p..p + 8]);
    Pow256Values();
    I64(Uint8korr(m, p))
  }

  /** Sign extension by hand: the top byte is 255 when bit 7 of the third byte is set. */
  function Sint3korr(m: seq<Byte>, p: nat): (r: int)
    requires p + 3 <= |m|
    ensures Value(m[p..p + 3]) < Pow256(3)
    ensures r == Signed(Value(m[p..p + 3]), 3)
  {
    var a, b, c := At(m, p), At(m, p + 1), At(m, p + 2);
    Sint3Range(m[p..p + 3]);
    Sint3Meaning(a, b, c);
    I32(if BitAnd(c, 128) != 0
        then BitOr(BitOr(BitOr(U32(255 * 0x100_0000), U32(c * 0x1_0000)), U32(b * 0x100)), a)
        else BitOr(BitOr(U32(c * 0x1_0000), U32(b * 0x100)), a))
  }

  lemma Sint3Meaning(a: nat, b: nat, c: nat)
    requires a < 256 && b < 256 && c < 256
    ensures BitAnd(c, 128) != 0 ==>
              var v := a + 0x100 * b + 0x1_0000 * c;
              && v >= 0x80_0000
              && I32(BitOr(BitOr(BitOr(U32(255 * 0x100_0000), U32(c * 0x1_0000)), U32(b * 0x100)), a)) == v - 0x100_0000
    ensures BitAnd(c, 128) == 0 ==>
              var v := a + 0x100 * b + 0x1_0000 * c;
              && v < 0x80_0000
              && I32(BitOr(BitOr(U32(c * 0x1_0000), U32(b * 0x100)), a)) == v
  {
    Sint3Sign(c);
    Sint3Fits(b, c);
    if BitAnd(c, 128) != 0 {
      Sint3Negative(a, b, c);
      Sint3Wrap(a + 0x100 * b + 0x1_0000 * c);
    } else {
      Sint3Tail(a, b, c);
      Sint3Wrap(a + 0x100 * b + 0x1_0000 * c);
    }
  }

  lemma Sint3Fits(b: nat, c: nat)
    requires b < 256 && c < 256
    ensures U32(255 * 0x100_0000) == 255 * 0x100_0000
    ensures U32(c * 0x1_0000) == c * 0x1_0000 && U32(b * 0x100) == b * 0x100
  {
  }

  lemma Sint3Wrap(v: nat)
    requires v < 0x100_0000
    ensures I32(v) == v && I32(255 * 0x100_0000 + v) == v - 0x100_0000
  {
  }

  lemma Sint3Range(s: seq<Byte>)
    requires |s| == 3
    ensures Value(s) < Pow256(3) == 0x100_0000
    ensures Value(s) == At(s, 0) + 0x100 * At(s, 1) + 0x1_0000 * At(s, 2)
  {
    ValueBound(s);
    ValueOf3(s);
    Pow256Values();
  }

  lemma Sint3Sign(c: nat)
    requires c < 256
    ensures BitAnd(c, 128) != 0 <==> c >= 128
  {
    Pow2Values();
    AndFlag(c, 7);
  }

  lemma Sint3Negative(a: nat, b: nat, c: nat)
    requires a < 256 && b < 256 && c < 256
    ensures BitOr(BitOr(BitOr(255 * 0x100_0000, c * 0x1_0000), b * 0x100), a)
         == 255 * 0x100_0000 + c * 0x1_0000 + b * 0x100 + a
  {
    Pow2Values();
    OrDisjoint(255, c * 0x1_0000, 24);
    Sint3Tail(a, b, 255 * 0x100 + c);
  }

  lemma Sint3Tail(a: nat, b: nat, c: nat)
    requires a < 256 && b < 256
    ensures BitOr(BitOr(c * 0x1_0000, b * 0x100), a) == c * 0x1_0000 + b * 0x100 + a
  {
    Pow2Values();
    OrDisjoint(c, b * 0x100, 16);
    OrDisjoint(c * 0x100 + b, a, 8);
  }

  lemma Pow2Values()
    ensures Pow2(7) == 128 && Pow2(8) == 0x100 && Pow2(16) == 0x1_0000 && Pow2(24) == 0x100_0000
  {
    assert Pow2(4) == 16;
    assert Pow2(8) == 16 * Pow2(4);
    assert Pow2(12) == 16 * Pow2(8);
    assert Pow2(16) == 16 * Pow2(12);
    assert Pow2(20) == 16 * Pow2(16);
    assert Pow2(24) == 16 * Pow2(20);
  }

  // ---------- portable stores ----------

  method Int2store(buf: array<Byte>, t: nat, a: Uint16)
    requires t + 2 <= buf.Length
    modifies buf
    ensures buf[..] == Splice(old(buf[..]), t, Digits(a, 2))
  {
    DigitsUpTo4(a, 2);
    buf[t] := Uchar(a);
    buf[t + 1] := Uchar(a / 0x100);
  }

  method Int3store(buf: array<Byte>, t: nat, a: Uint32)
    requires t + 3 <= buf.Length
    modifies buf
    ensures buf[..] == Splice(old(buf[..]), t, Digits(a, 3))
  {
    DigitsUpTo4(a, 3);
    buf[t] := Uchar(a);
    buf[t + 1] := Uchar(a / 0x100);
    buf[t + 2] := Uchar(a / 0x1_0000);
  }

  method Int4store(buf: array<Byte>, t: nat, a: Uint32)
    requires t + 4 <= buf.Length
    modifies buf
    ensures buf[..] == Splice(old(buf[..]), t, Digits(a, 4))
  {
    DigitsUpTo4(a, 4);
    buf[t] := Uchar(a);
    buf[t + 1] := Uchar(a / 0x100);
    buf[t + 2] := Uchar(a / 0x1_0000);
    buf[t + 3] := Uchar(a / 0x100_0000);
  }

  method Int5store(buf: array<Byte>, t: nat, a: Uint64)
    requires t + 5 <= buf.Length
    modifies buf
    ensures buf[..] == Splice(old(buf[..]), t, Digits(a, 5))
  {
    DigitsUpTo6(a, 5);
    buf[t] := Uchar(a);
    buf[t + 1] := Uchar(a / 0x100);
    buf[t + 2] := Uchar(a / 0x1_0000);
    buf[t + 3] := Uchar(a / 0x100_0000);
    buf[t + 4] := Uchar(a / 0x1_0000_0000);
  }

  method Int6store(buf: array<Byte>, t: nat, a: Uint64)
    requires t + 6 <= buf.Length
    modifies buf
    ensures buf[..] == Splice(old(buf[..]), t, Digits(a, 6))
  {
    DigitsUpTo6(a, 6);
    buf[t] := Uchar(a);
    buf[t + 1] := Uchar(a / 0x100);
    buf[t + 2] := Uchar(a / 0x1_0000);
    buf[t + 3] := Uchar(a / 0x100_0000);
    buf[t + 4] := Uchar(a / 0x1_0000_0000);
    buf[t + 5] := Uchar(a / 0x100_0000_0000);
  }

  method Int8store(buf: array<Byte>, t: nat, a: Uint64)
    requires t + 8 <= buf.Length
    modifies buf
    ensures buf[..] == Splice(old(buf[..]), t, Digits(a, 8))
  {
    var low := U32(a);
    var high := U32(a / 0x1_0000_0000);
    Int4store(buf, t, low);
    Int4store(buf, t + 4, high);
    DigitsHalves(a);
  }

  lemma DigitsUpTo4(a: nat, k: nat)
    requires 2 <= k <= 4
    ensures Digits(a, k)[0] == a % 256 && Digits(a, k)[1] == a / 0x100 % 256
    ensures k > 2 ==> Digits(a, k)[2] == a / 0x1_0000 % 256
    ensures k > 3 ==> Digits(a, k)[3] == a / 0x100_0000 % 256
  {
    Pow256Values();
    forall i | 0 <= i < k
      ensures Digits(a, k)[i] == a / Pow256(i) % 256
    {
      DigitsAt(a, k, i);
    }
  }

  lemma DigitsUpTo6(a: nat, k: nat)
    requires 5 <= k <= 6
    ensures Digits(a, k)[0] == a % 256 && Digits(a, k)[1] == a / 0x100 % 256
    ensures Digits(a, k)[2] == a / 0x1_0000 % 256 && Digits(a, k)[3] == a / 0x100_0000 % 256
    ensures Digits(a, k)[4] == a / 0x1_0000_0000 % 256
    ensures k > 5 ==> Digits(a, k)[5] == a / 0x100_0000_0000 % 256
  {
    Pow256Values();
    forall i | 0 <= i < k
      ensures Digits(a, k)[i] == a / Pow256(i) % 256
    {
      DigitsAt(a, k, i);
    }
  }

  /** The eight bytes of a long word are the four of its low half and the four of its high half. */
  lemma DigitsHalves(a: Uint64)
    ensures Digits(a, 8) == Digits(U32(a), 4) + Digits(U32(a / 0x1_0000_0000), 4)
  {
    var lo, hi := U32(a), U32(a / 0x1_0000_0000);
    Pow256Values();
    StoreThenLoad(lo, 4);
    StoreThenLoad(hi, 4);
    StoreThenLoad(a, 8);
    ValueConcat(Digits(lo, 4), Digits(hi, 4));
    ValueInjective(Digits(a, 8), Digits(lo, 4) + Digits(hi, 4));
  }

  // ---------- round trips ----------

  /** A stored number, loaded from where it was stored, is its value modulo `256^k`. */
  lemma LoadOfStore(m: seq<Byte>, t: nat, v: nat, k: nat)
    requires t + k <= |m|
    ensures Value(Splice(m, t, Digits(v, k))[t..t + k]) == v % Pow256(k)
  {
    ValueOfDigits(v, k);
  }

  /** `int3store` then `sint3korr`, on the whole signed 24-bit range and only there. */
  lemma Sint3RoundTrip(m: seq<Byte>, t: nat, v: int)
    requires t + 3 <= |m| && -0x8000_0000 <= v < 0x8000_0000
    ensures Sint3korr(Splice(m, t, Digits(U32OfInt(v), 3)), t) == v <==> -0x80_0000 <= v < 0x80_0000
  {
    LoadOfStore(m, t, U32OfInt(v), 3);
    Pow256Values();
    Low24(v);
  }

  lemma Low24(v: int)
    requires -0x8000_0000 <= v < 0x8000_0000
    ensures var w := U32OfInt(v) % 0x100_0000;
            (if w < 0x80_0000 then w else w - 0x100_0000) == v <==> -0x80_0000 <= v < 0x80_0000
  {
  }

  /** The conversion of a C `int` argument to `uint`. */
  function U32OfInt(v: int): Uint32 { v % 0x1_0000_0000 }

  /** Storing a loaded field back leaves memory as it was. */
  lemma StoreOfLoad(m: seq<Byte>, t: nat, k: nat)
    requires t + k <= |m|
    ensures Splice(m, t, Digits(Value(m[t..t + k]), k)) == m
  {
    DigitsOfValue(m[t..t + k]);
  }
}
