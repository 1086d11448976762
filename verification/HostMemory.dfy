/**
  Objects in the memory of hosts with different byte orders, and the float and
  machine-format accessors that are compiled for them.
  A `float` or `double` is the bit pattern it holds, a natural number below
  `256^4` or `256^8`.
 */
module HostMemory {
  import opened Bytes
  import opened ByteOrder

  /**
    `Little` and `Big` order all bytes one way. `WordSwapped` is the bi-endian
    hardware: integers and floats are little-endian, but the two words of a
    `double` are in big-endian order.
   */
  datatype Host = Little | Big | WordSwapped

  function Reverse(s: seq<Byte>): (r: seq<Byte>)
    ensures |r| == |s| && forall i :: 0 <= i < |s| ==> r[i] == s[|s| - 1 - i]
  {
    if s == [] then [] else Reverse(s[1..]) + [s[0]]
  }

  /** The memory of an integer or float object of `k` bytes. */
  function Image(h: Host, v: nat, k: nat): (s: seq<Byte>)
    ensures |s| == k
  {
    if h.Big? then Reverse(Digits(v, k)) else Digits(v, k)
  }

  /** The object that memory `s` holds. */
  function FromImage(h: Host, s: seq<Byte>): nat {
    if h.Big? then Value(Reverse(s)) else Value(s)
  }

  function SwapWords(v: nat): (r: nat)
    requires v < TWO64
    ensures r < TWO64
  {
    v / TWO32 + TWO32 * (v % TWO32)
  }

  /** The memory of a `double` object. */
  function DoubleImage(h: Host, v: Uint64): (s: seq<Byte>)
    ensures |s| == 8
  {
    if h.WordSwapped? then Digits(v / TWO32, 4) + Digits(v % TWO32, 4) else Image(h, v, 8)
  }

  function FromDoubleImage(h: Host, s: seq<Byte>): (v: Uint64)
    requires |s| == 8
  {
    ValueBound(s); ValueBound(Reverse(s)); Pow256Values();
    if h.WordSwapped? then SwapWords(Value(s)) else FromImage(h, s)
  }

  lemma ReverseTwice(s: seq<Byte>)
    ensures Reverse(Reverse(s)) == s
  {
  }

  lemma ImageRoundTrip(h: Host, v: nat, k: nat)
    requires v < Pow256(k)
    ensures FromImage(h, Image(h, v, k)) == v
  {
    ReverseTwice(Digits(v, k));
    StoreThenLoad(v, k);
  }

  lemma SwapTwice(v: Uint64)
    ensures SwapWords(SwapWords(v)) == v
    ensures SwapWords(v) == v <==> v / TWO32 == v % TWO32
  {
  }

  /** The swapped image is the little-endian image of the number with its words swapped. */
  lemma SwappedDigits(v: Uint64)
    ensures Digits(SwapWords(v), 8) == Digits(v / TWO32, 4) + Digits(v % TWO32, 4)
    ensures Digits(v, 8) == Digits(v % TWO32, 4) + Digits(v / TWO32, 4)
  {
    SwapHalves(v);
    DigitsHalves(SwapWords(v));
    DigitsHalves(v);
  }

  lemma SwapHalves(v: Uint64)
    ensures U32(v) == v % TWO32 && U32(v / 0x1_0000_0000) == v / TWO32
    ensures U32(SwapWords(v)) == v / TWO32 && U32(SwapWords(v) / 0x1_0000_0000) == v % TWO32
  {
  }

  // ---------- x86: one load or store of the whole object ----------

  function X86Uint2korr(m: seq<Byte>, p: nat): (r: nat)
    requires p + 2 <= |m|
    ensures r == Uint2korr(m, p)
  {
    FromImage(Little, m[p..p + 2])
  }

  function X86Uint4korr(m: seq<Byte>, p: nat): (r: nat)
    requires p + 4 <= |m|
    ensures r == Uint4korr(m, p)
  {
    FromImage(Little, m[p..p + 4])
  }

  function X86Uint8korr(m: seq<Byte>, p: nat): (r: nat)
    requires p + 8 <= |m|
    ensures r == Uint8korr(m, p)
  {
    FromImage(Little, m[p..p + 8])
  }

  function X86Sint2korr(m: seq<Byte>, p: nat): (r: int)
    requires p + 2 <= |m|
    ensures r == Sint2korr(m, p)
  {
    ValueBound(m[p..p + 2]);
    Signed(FromImage(Little, m[p..p + 2]), 2)
  }

  function X86Sint4korr(m: seq<Byte>, p: nat): (r: int)
    requires p + 4 <= |m|
    ensures r == Sint4korr(m, p)
  {
    ValueBound(m[p..p + 4]);
    Signed(FromImage(Little, m[p..p + 4]), 4)
  }

  function X86Sint8korr(m: seq<Byte>, p: nat): (r: int)
    requires p + 8 <= |m|
    ensures r == Sint8korr(m, p)
  {
    ValueBound(m[p..p + 8]);
    Signed(FromImage(Little, m[p..p + 8]), 8)
  }

  method X86Int2store(buf: array<Byte>, t: nat, a: Uint16)
    requires t + 2 <= buf.Length
    modifies buf
    ensures buf[..] == Splice(old(buf[..]), t, Digits(a, 2))
  {
    Memcpy(buf, t, Image(Little, a, 2));
  }

  method X86Int4store(buf: array<Byte>, t: nat, a: Uint32)
    requires t + 4 <= buf.Length
    modifies buf
    ensures buf[..] == Splice(old(buf[..]), t, Digits(a, 4))
  {
    Memcpy(buf, t, Image(Little, a, 4));
  }

  method X86Int8store(buf: array<Byte>, t: nat, a: Uint64)
    requires t + 8 <= buf.Length
    modifies buf
    ensures buf[..] == Splice(old(buf[..]), t, Digits(a, 8))
  {
    Memcpy(buf, t, Image(Little, a, 8));
  }

  // ---------- portable float format ----------

  method Float4store(h: Host, buf: array<Byte>, t: nat, v: Uint32)
    requires t + 4 <= buf.Length
    modifies buf
    ensures buf[..] == Splice(old(buf[..]), t, Digits(v, 4))
  {
    var obj := Image(h, v, 4);
    if h.Big? {
      buf[t] := obj[3];
      buf[t + 1] := obj[2];
      buf[t + 2] := obj[1];
      buf[t + 3] := obj[0];
    } else {
      Memcpy(buf, t, obj);
    }
  }

  method Float4get(h: Host, m: seq<Byte>, p: nat) returns (v: nat)
    requires p + 4 <= |m|
    ensures v == Value(m[p..p + 4])
  {
    if h.Big? {
      var temp := [m[p + 3], m[p + 2], m[p + 1], m[p]];
      assert Reverse(temp) == m[p..p + 4];
      v := FromImage(h, temp);
    } else {
      v := FromImage(h, m[p..p + 4]);
    }
  }

  /** The eight bytes that `float8store` leaves. */
  function StoredDouble(h: Host, v: Uint64): (s: seq<Byte>)
    ensures |s| == 8
  {
    Digits(if h.WordSwapped? then SwapWords(v) else v, 8)
  }

  /** The `double` that `float8get` makes of eight bytes. */
  function LoadedDouble(h: Host, s: seq<Byte>): Uint64
    requires |s| == 8
  {
    ValueBound(s); Pow256Values();
    if h.WordSwapped? then SwapWords(Value(s)) else Value(s)
  }

  lemma ObjectToStored(h: Host, v: Uint64)
    ensures StoredDouble(h, v) == if h.Big? then Reverse(DoubleImage(h, v)) else DoubleImage(h, v)
  {
    SwappedDigits(v);
    ReverseTwice(Digits(v, 8));
  }

  /** The eight assignments of the big-endian store. */
  method StoreReversed(buf: array<Byte>, t: nat, obj: seq<Byte>)
    requires t + 8 <= buf.Length && |obj| == 8
    modifies buf
    ensures buf[..] == Splice(old(buf[..]), t, Reverse(obj))
  {
    ghost var d := Reverse(obj);
    buf[t] := obj[7];
    buf[t + 1] := obj[6];
    buf[t + 2] := obj[5];
    buf[t + 3] := obj[4];
    buf[t + 4] := obj[3];
    buf[t + 5] := obj[2];
    buf[t + 6] := obj[1];
    buf[t + 7] := obj[0];
    assert buf[t..t + 8] == d;
  }

  method Float8store(h: Host, buf: array<Byte>, t: nat, v: Uint64)
    requires t + 8 <= buf.Length
    modifies buf
    ensures buf[..] == Splice(old(buf[..]), t, StoredDouble(h, v))
  {
    var obj := DoubleImage(h, v);
    ObjectToStored(h, v);
    if h.Big? {
      StoreReversed(buf, t, obj);
    } else {
      Memcpy(buf, t, obj);
    }
  }

  method Float8get(h: Host, m: seq<Byte>, p: nat) returns (v: Uint64)
    requires p + 8 <= |m|
    ensures v == LoadedDouble(h, m[p..p + 8])
  {
    if h.Big? {
      var temp := [m[p + 7], m[p + 6], m[p + 5], m[p + 4], m[p + 3], m[p + 2], m[p + 1], m[p]];
      assert Reverse(temp) == m[p..p + 8];
      v := FromDoubleImage(h, temp);
    } else {
      v := FromDoubleImage(h, m[p..p + 8]);
    }
  }

  method Memcpy(buf: array<Byte>, t: nat, s: seq<Byte>)
    requires t + |s| <= buf.Length
    modifies buf
    ensures buf[..] == Splice(old(buf[..]), t, s)
  {
    for i := 0 to |s|
      invariant forall j :: 0 <= j < i ==> buf[t + j] == s[j]
      invariant forall j :: 0 <= j < buf.Length && !(t <= j < t + i) ==> buf[j] == old(buf[j])
    {
      buf[t + i] := s[i];
    }
  }

  /** A float stored on any host reads back as the same bit pattern on any host. */
  method FloatAcrossHosts(from: Host, to: Host, v: Uint32) returns (w: nat)
    ensures w == v
  {
    var buf := new Byte[4];
    Float4store(from, buf, 0, v);
    w := Float4get(to, buf[..], 0);
    Pow256Values();
    StoreThenLoad(v, 4);
  }

  /**
    A double stored on one host reads back as the same bit pattern on another
    exactly when both or neither are word-swapped, or its two words are equal:
    `float8store` copies the object as it is on the bi-endian hardware.
   */
  lemma DoublePortable(from: Host, to: Host, v: Uint64)
    ensures LoadedDouble(to, StoredDouble(from, v)) == v
       <==> from.WordSwapped? == to.WordSwapped? || v / TWO32 == v % TWO32
  {
    Pow256Values();
    StoreThenLoad(v, 8);
    StoreThenLoad(SwapWords(v), 8);
    SwapTwice(v);
  }

  /** The number 1 as a word-swapped double does not come back on a little-endian host. */
  lemma SwappedDoubleIsLost()
    ensures LoadedDouble(Little, StoredDouble(WordSwapped, 1)) != 1
  {
    DoublePortable(WordSwapped, Little, 1);
  }

  /** The same for the accessors themselves. */
  method DoubleAcrossHosts(from: Host, to: Host, v: Uint64) returns (w: Uint64)
    ensures w == v <==> from.WordSwapped? == to.WordSwapped? || v / TWO32 == v % TWO32
  {
    var buf := new Byte[8];
    Float8store(from, buf, 0, v);
    w := Float8get(to, buf[..], 0);
    DoublePortable(from, to, v);
    assert buf[..][0..8] == StoredDouble(from, v);
  }

  // ---------- machine format ----------

  /** The bytes that `doublestore` leaves: it puts the words of a swapped double in order. */
  function MachineDouble(h: Host, v: Uint64): (s: seq<Byte>)
    ensures |s| == 8
  {
    if h.Big? then Reverse(Digits(v, 8)) else Digits(v, 8)
  }

  method Doublestore(h: Host, buf: array<Byte>, t: nat, v: Uint64)
    requires t + 8 <= buf.Length
    modifies buf
    ensures buf[..] == Splice(old(buf[..]), t, MachineDouble(h, v))
  {
    var obj := DoubleImage(h, v);
    if h.WordSwapped? {
      ghost var d := MachineDouble(h, v);
      SwappedWords(v, obj, d);
      buf[t] := obj[4];
      buf[t + 1] := obj[5];
      buf[t + 2] := obj[6];
      buf[t + 3] := obj[7];
      buf[t + 4] := obj[0];
      buf[t + 5] := obj[1];
      buf[t + 6] := obj[2];
      buf[t + 7] := obj[3];
      assert buf[t..t + 8] == d;
    } else {
      Memcpy(buf, t, obj);
    }
  }

  lemma SwappedWords(v: Uint64, obj: seq<Byte>, d: seq<Byte>)
    requires obj == DoubleImage(WordSwapped, v) && d == MachineDouble(WordSwapped, v)
    ensures forall i :: 0 <= i < 4 ==> d[i] == obj[i + 4] && d[i + 4] == obj[i]
  {
    SwappedDigits(v);
  }

  /** `doubleget` undoes `doublestore` on every host. */
  method Doubleget(h: Host, m: seq<Byte>, p: nat) returns (v: Uint64)
    requires p + 8 <= |m|
    ensures m[p..p + 8] == MachineDouble(h, v)
  {
    var obj := m[p..p + 8];
    if h.WordSwapped? {
      var temp := [m[p + 4], m[p + 5], m[p + 6], m[p + 7], m[p], m[p + 1], m[p + 2], m[p + 3]];
      v := FromDoubleImage(h, temp);
      assert temp == obj[4..] + obj[..4];
      SwappedObject(obj, temp);
    } else {
      v := FromDoubleImage(h, obj);
      ImageOfObject(h, obj);
    }
  }

  lemma SwappedObject(obj: seq<Byte>, temp: seq<Byte>)
    requires |obj| == 8 && temp == obj[4..] + obj[..4]
    ensures MachineDouble(WordSwapped, FromDoubleImage(WordSwapped, temp)) == obj
  {
    WordsOfValue(temp);
    assert temp[4..] == obj[..4] && temp[..4] == obj[4..];
    assert obj == obj[..4] + obj[4..];
  }

  lemma ImageOfObject(h: Host, s: seq<Byte>)
    requires !h.WordSwapped? && |s| == 8
    ensures MachineDouble(h, FromDoubleImage(h, s)) == s
  {
    if h.Big? {
      DigitsOfValue(Reverse(s));
      ReverseTwice(s);
    } else {
      DigitsOfValue(s);
    }
  }

  /** Swapping the words of a number swaps the halves of its bytes. */
  lemma WordsOfValue(s: seq<Byte>)
    requires |s| == 8
    ensures Value(s) < TWO64 && Digits(SwapWords(Value(s)), 8) == s[4..] + s[..4]
  {
    var lo, hi := s[..4], s[4..];
    ValueHalves(s);
    SwappedDigits(Value(s));
    DigitsOfValue(lo);
    DigitsOfValue(hi);
  }

  lemma ValueHalves(s: seq<Byte>)
    requires |s| == 8
    ensures Value(s) < TWO64
    ensures Value(s) / TWO32 == Value(s[4..]) && Value(s) % TWO32 == Value(s[..4])
  {
    ValueBound(s);
    ValueBound(s[..4]);
    Pow256Values();
    assert s == s[..4] + s[4..];
    ValueConcat(s[..4], s[4..]);
  }

  /** `shortget` reads the host's own 16-bit object, by arithmetic on both kinds of host. */
  method Shortget(h: Host, m: seq<Byte>, p: nat) returns (v: int)
    requires p + 2 <= |m|
    ensures FromImage(h, m[p..p + 2]) < Pow256(2)
    ensures v == Signed(FromImage(h, m[p..p + 2]), 2)
  {
    if h.Big? {
      BigPair(m, p);
      BigShort(At(m, p + 1), At(m, p));
      v := I16(I32(At(m, p + 1) + I32(At(m, p) * 0x100)));
    } else {
      v := Sint2korr(m, p);
    }
  }

  /** Two bytes on a big-endian host. */
  lemma BigPair(m: seq<Byte>, p: nat)
    requires p + 2 <= |m|
    ensures FromImage(Big, m[p..p + 2]) == At(m, p + 1) + 0x100 * At(m, p) < TWO16 == Pow256(2)
  {
    var r := [m[p + 1], m[p]];
    assert Reverse(m[p..p + 2]) == r;
    ValueOf2(r);
    Pow256Values();
  }

  /** The byte is shifted as an `int`; only the sum is cut to 16 bits, with the sign of the high byte. */
  lemma BigShort(x: nat, y: nat)
    requires x < 256 && y < 256
    ensures I16(I32(x + I32(y * 0x100))) == (if y < 128 then x + 0x100 * y else x + 0x100 * y - 0x1_0000)
  {
    var z := y * 0x100;
    InRange32(z);
    InRange32(x + z);
    if y < 128 {
      InRange16(x + z);
    } else {
      OverRange16(x + z);
    }
  }

  lemma InRange32(v: int)
    requires -0x8000_0000 <= v < 0x8000_0000
    ensures I32(v) == v
  {
  }

  lemma InRange16(v: int)
    requires -0x8000 <= v < 0x8000
    ensures I16(v) == v
  {
  }

  lemma OverRange16(v: int)
    requires 0x8000 <= v < 0x1_0000
    ensures I16(v) == v - 0x1_0000
  {
  }

  method Ushortget(h: Host, m: seq<Byte>, p: nat) returns (v: nat)
    requires p + 2 <= |m|
    ensures v == FromImage(h, m[p..p + 2])
  {
    if h.Big? {
      BigPair(m, p);
      v := U16(At(m, p + 1) + At(m, p) * 0x100);
    } else {
      v := Uint2korr(m, p);
    }
  }

  /** The conversion of an `int16` or `int32` argument to bytes by shifts. */
  method Shortstore(h: Host, buf: array<Byte>, t: nat, a: int)
    requires t + 2 <= buf.Length && -0x8000 <= a < 0x8000
    modifies buf
    ensures buf[..] == Splice(old(buf[..]), t, Image(h, a % TWO16, 2))
  {
    ShortBytes(a);
    if h.Big? {
      var temp := U32OfInt(a);
      buf[t + 1] := Uchar(temp);
      buf[t] := Uchar(temp / 0x100);
    } else {
      Int2store(buf, t, a % 0x1_0000);
    }
  }

  lemma ShortBytes(a: int)
    requires -0x8000 <= a < 0x8000
    ensures Digits(a % TWO16, 2) == [U32OfInt(a) % 256, U32OfInt(a) / 0x100 % 256]
  {
    DigitsUpTo4(a % TWO16, 2);
    ShortWord(a);
  }

  lemma ShortWord(a: int)
    requires -0x8000 <= a < 0x8000
    ensures var w := if a < 0 then a + 0x1_0000_0000 else a;
            U32OfInt(a) == w && a % TWO16 % 256 == w % 256 && a % TWO16 / 0x100 % 256 == w / 0x100 % 256
  {
    if a < 0 {
      assert a % TWO16 == a + 0x1_0000;
      assert (a + 0x1_0000_0000) / 0x100 == (a + 0x1_0000) / 0x100 + 0xFF_FF00;
    } else {
      assert a % TWO16 == a;
    }
  }

  method Longget(h: Host, m: seq<Byte>, p: nat) returns (v: int)
    requires p + 4 <= |m|
    ensures FromImage(h, m[p..p + 4]) < Pow256(4)
    ensures v == Signed(FromImage(h, m[p..p + 4]), 4)
  {
    ValueBound(m[p..p + 4]);
    ValueBound(Reverse(m[p..p + 4]));
    if h.Big? {
      var temp := [m[p], m[p + 1], m[p + 2], m[p + 3]];
      assert temp == m[p..p + 4];
      v := Signed(FromImage(h, temp), 4);
    } else {
      v := Sint4korr(m, p);
    }
  }

  method Longstore(h: Host, buf: array<Byte>, t: nat, a: int)
    requires t + 4 <= buf.Length && -0x8000_0000 <= a < 0x8000_0000
    modifies buf
    ensures buf[..] == Splice(old(buf[..]), t, Image(h, U32OfInt(a), 4))
  {
    if h.Big? {
      LongBytes(a);
      buf[t + 3] := a % 256;
      buf[t + 2] := a / 0x100 % 256;
      buf[t + 1] := a / 0x1_0000 % 256;
      buf[t] := a / 0x100_0000 % 256;
    } else {
      Int4store(buf, t, U32OfInt(a));
    }
  }

  /** Arithmetic shifts of a negative number give the bytes of its two's complement word. */
  lemma LongBytes(a: int)
    requires -0x8000_0000 <= a < 0x8000_0000
    ensures Digits(U32OfInt(a), 4) == [a % 256, a / 0x100 % 256, a / 0x1_0000 % 256, a / 0x100_0000 % 256]
  {
    DigitsUpTo4(U32OfInt(a), 4);
    ShiftByte0(a);
    ShiftByte8(a);
    ShiftByte16(a);
    ShiftByte24(a);
  }

  lemma ShiftByte0(a: int)
    requires -0x8000_0000 <= a < 0x8000_0000
    ensures U32OfInt(a) % 256 == a % 256
  {
  }

  lemma ShiftByte8(a: int)
    requires -0x8000_0000 <= a < 0x8000_0000
    ensures U32OfInt(a) / 0x100 % 256 == a / 0x100 % 256
  {
    TwosComplement(a);
    assert (a + 0x1_0000_0000) / 0x100 == a / 0x100 + 0x100_0000;
  }

  lemma ShiftByte16(a: int)
    requires -0x8000_0000 <= a < 0x8000_0000
    ensures U32OfInt(a) / 0x1_0000 % 256 == a / 0x1_0000 % 256
  {
    TwosComplement(a);
    assert (a + 0x1_0000_0000) / 0x1_0000 == a / 0x1_0000 + 0x1_0000;
  }

  lemma ShiftByte24(a: int)
    requires -0x8000_0000 <= a < 0x8000_0000
    ensures U32OfInt(a) / 0x100_0000 % 256 == a / 0x100_0000 % 256
  {
    TwosComplement(a);
    assert (a + 0x1_0000_0000) / 0x100_0000 == a / 0x100_0000 + 0x100;
  }

  lemma TwosComplement(a: int)
    requires -0x8000_0000 <= a < 0x8000_0000
    ensures U32OfInt(a) == if a < 0 then a + 0x1_0000_0000 else a
  {
  }

  /** A machine-format integer reads back on the host that stored it. */
  lemma MachineLongRoundTrip(h: Host, a: int)
    requires -0x8000_0000 <= a < 0x8000_0000
    ensures FromImage(h, Image(h, U32OfInt(a), 4)) < Pow256(4)
    ensures Signed(FromImage(h, Image(h, U32OfInt(a), 4)), 4) == a
  {
    Pow256Values();
    ImageRoundTrip(h, U32OfInt(a), 4);
  }
}
