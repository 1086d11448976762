/**
  UTF-8 text (section 4 of RFC 3629): byte sequences that are a run of whole
  characters, and why byte-wise search and replacement act on whole characters.
 */
module Utf8 {
  import opened Bytes
  import opened Strings

  type Char = seq<Byte>

  /** A byte that can only stand inside a character. */
  predicate Tail(b: Byte) { 0x80 <= b <= 0xBF }

  /** The encodings of one character, UTF8-1 to UTF8-4. */
  predicate IsChar(c: Char) {
    || (|c| == 1 && c[0] <= 0x7F)
    || (|c| == 2 && 0xC2 <= c[0] <= 0xDF && Tail(c[1]))
    || (|c| == 3 && SecondOf3(c[0], c[1]) && Tail(c[2]))
    || (|c| == 4 && SecondOf4(c[0], c[1]) && Tail(c[2]) && Tail(c[3]))
  }

  predicate SecondOf3(b0: Byte, b1: Byte) {
    || (b0 == 0xE0 && 0xA0 <= b1 <= 0xBF)
    || (0xE1 <= b0 <= 0xEC && Tail(b1))
    || (b0 == 0xED && 0x80 <= b1 <= 0x9F)
    || (0xEE <= b0 <= 0xEF && Tail(b1))
  }

  predicate SecondOf4(b0: Byte, b1: Byte) {
    || (b0 == 0xF0 && 0x90 <= b1 <= 0xBF)
    || (0xF1 <= b0 <= 0xF3 && Tail(b1))
    || (b0 == 0xF4 && 0x80 <= b1 <= 0x8F)
  }

  /** The encoding of a code point (section 3 of RFC 3629). */
  function Encode(cp: nat): Char
    requires cp < 0x11_0000
  {
    if cp < 0x80 then [cp]
    else if cp < 0x800 then [0xC0 + cp / 0x40, 0x80 + cp % 0x40]
    else if cp < 0x1_0000 then [0xE0 + cp / 0x1000, 0x80 + cp / 0x40 % 0x40, 0x80 + cp % 0x40]
    else [0xF0 + cp / 0x4_0000, 0x80 + cp / 0x1000 % 0x40, 0x80 + cp / 0x40 % 0x40, 0x80 + cp % 0x40]
  }

  /** A code point that is no surrogate. */
  predicate IsScalar(cp: nat) {
    cp < 0xD800 || 0xE000 <= cp < 0x11_0000
  }

  /** The characters are just the encodings of the code points that are no surrogates. */
  lemma EncodedIsChar(cp: nat)
    requires IsScalar(cp)
    ensures IsChar(Encode(cp))
  {
    assert cp / 0x40 / 0x40 == cp / 0x1000;
    assert cp / 0x1000 / 0x40 == cp / 0x4_0000;
  }

  lemma CharIsEncoded(c: Char) returns (cp: nat)
    requires IsChar(c)
    ensures IsScalar(cp) && Encode(cp) == c
  {
    if |c| == 1 {
      cp := c[0];
    } else if |c| == 2 {
      cp := EncodedInTwo(c[0], c[1]);
    } else if |c| == 3 {
      cp := EncodedInThree(c[0], c[1], c[2]);
    } else {
      cp := EncodedInFour(c[0], c[1], c[2], c[3]);
    }
  }

  /** Six more bits of a code point. */
  lemma SixBits(q: nat, r: nat)
    requires r < 0x40
    ensures (q * 0x40 + r) / 0x40 == q && (q * 0x40 + r) % 0x40 == r
  {
  }

  lemma Quotients(cp: nat)
    ensures cp / 0x40 / 0x40 == cp / 0x1000 && cp / 0x40 / 0x40 / 0x40 == cp / 0x4_0000
  {
  }

  lemma EncodedInTwo(b0: int, b1: int) returns (cp: nat)
    requires 0xC2 <= b0 <= 0xDF && 0x80 <= b1 <= 0xBF
    ensures 0x80 <= cp < 0x800 && Encode(cp) == [b0, b1]
  {
    cp := (b0 - 0xC0) * 0x40 + (b1 - 0x80);
    SixBits(b0 - 0xC0, b1 - 0x80);
  }

  lemma EncodedInThree(b0: int, b1: int, b2: int) returns (cp: nat)
    requires 0xE0 <= b0 <= 0xEF && 0x80 <= b1 <= 0xBF && 0x80 <= b2 <= 0xBF && SecondOf3(b0, b1)
    ensures IsScalar(cp) && Encode(cp) == [b0, b1, b2]
  {
    var high := (b0 - 0xE0) * 0x40 + (b1 - 0x80);
    cp := high * 0x40 + (b2 - 0x80);
    SixBits(b0 - 0xE0, b1 - 0x80);
    SixBits(high, b2 - 0x80);
    Quotients(cp);
    assert 0x20 <= high < 0x360 || 0x380 <= high < 0x400;
  }

  lemma EncodedInFour(b0: int, b1: int, b2: int, b3: int) returns (cp: nat)
    requires 0xF0 <= b0 <= 0xF4 && 0x80 <= b1 <= 0xBF && 0x80 <= b2 <= 0xBF && 0x80 <= b3 <= 0xBF
    requires SecondOf4(b0, b1)
    ensures IsScalar(cp) && Encode(cp) == [b0, b1, b2, b3]
  {
    var top := (b0 - 0xF0) * 0x40 + (b1 - 0x80);
    var high := top * 0x40 + (b2 - 0x80);
    cp := high * 0x40 + (b3 - 0x80);
    SixBits(b0 - 0xF0, b1 - 0x80);
    SixBits(top, b2 - 0x80);
    SixBits(high, b3 - 0x80);
    Quotients(cp);
    assert 0x10 <= top < 0x110;
  }

  predicate AllChars(cs: seq<Char>) {
    forall i :: 0 <= i < |cs| ==> IsChar(cs[i])
  }

  /** The bytes of a run of characters. */
  function Flatten(cs: seq<Char>): seq<Byte> {
    if cs == [] then [] else cs[0] + Flatten(cs[1..])
  }

  ghost predicate Valid(s: seq<Byte>) {
    exists cs :: AllChars(cs) && Flatten(cs) == s
  }

  // ---------- single characters ----------

  /** The shape of a character: a byte that is no tail, then tails, as many as the first byte says. */
  lemma CharShape(c: Char)
    requires IsChar(c)
    ensures |c| == CharLength(c[0]) && 0 < |c| <= 4 && !Tail(c[0])
    ensures forall i :: 0 < i < |c| ==> Tail(c[i])
    ensures |c| == 1 <==> c[0] < 0x80
  {
  }

  function CharLength(b: Byte): nat {
    if b < 0x80 then 1 else if b < 0xE0 then 2 else if b < 0xF0 then 3 else 4
  }

  lemma {:induction false} FlattenConcat(a: seq<Char>, b: seq<Char>)
    ensures Flatten(a + b) == Flatten(a) + Flatten(b)
  {
    if a == [] {
      assert a + b == b;
    } else {
      FlattenConcat(a[1..], b);
      assert (a + b)[1..] == a[1..] + b && (a + b)[0] == a[0];
      assert a[0] + (Flatten(a[1..]) + Flatten(b)) == a[0] + Flatten(a[1..]) + Flatten(b);
    }
  }

  lemma FlattenOne(c: Char)
    ensures Flatten([c]) == c
  {
    assert [c][1..] == [];
  }

  /** Non-empty text begins with a byte that is no tail. */
  lemma FirstByte(cs: seq<Char>)
    requires AllChars(cs) && cs != []
    ensures Flatten(cs) != [] && !Tail(Flatten(cs)[0]) && Flatten(cs)[0] == cs[0][0]
  {
    CharShape(cs[0]);
  }

  /** Two texts that begin with the same character bytes begin with the same character. */
  lemma SameFirstChar(c: Char, a: seq<Byte>, d: Char, b: seq<Byte>)
    requires IsChar(c) && IsChar(d) && Prefix(d + b, c + a)
    ensures c == d && Prefix(b, a)
  {
    CharShape(c);
    CharShape(d);
    assert (c + a)[..|d + b|] == d + b;
    assert (c + a)[0] == (d + b)[0];
    assert c == (c + a)[..|c|] == (d + b)[..|d|] == d;
    assert b == (d + b)[|d|..];
  }

  /** One text is a prefix of another in bytes exactly when it is in characters. */
  lemma {:induction false} PrefixOfText(ps: seq<Char>, cs: seq<Char>)
    requires AllChars(ps) && AllChars(cs)
    ensures Prefix(Flatten(ps), Flatten(cs)) <==> Prefix(ps, cs)
  {
    if ps == [] {
    } else if cs == [] {
      FirstByte(ps);
    } else {
      PrefixOfText(ps[1..], cs[1..]);
      if Prefix(Flatten(ps), Flatten(cs)) {
        SameFirstChar(cs[0], Flatten(cs[1..]), ps[0], Flatten(ps[1..]));
        assert cs[..|ps|] == [cs[0]] + cs[1..][..|ps| - 1];
      }
      if Prefix(ps, cs) {
        assert cs == ps + cs[|ps|..];
        FlattenConcat(ps, cs[|ps|..]);
      }
    }
  }

  /** Text has only one reading. */
  lemma FlattenInjective(a: seq<Char>, b: seq<Char>)
    requires AllChars(a) && AllChars(b) && Flatten(a) == Flatten(b)
    ensures a == b
  {
    PrefixOfText(a, b);
    PrefixOfText(b, a);
  }

  /** No text occurs beginning inside a character. */
  lemma NotInside(c: Char, k: nat, s: seq<Byte>, ps: seq<Char>)
    requires IsChar(c) && 0 < k < |c| && AllChars(ps) && ps != []
    ensures !Prefix(Flatten(ps), c[k..] + s)
  {
    CharShape(c);
    FirstByte(ps);
    assert (c[k..] + s)[0] == c[k];
  }

  // ---------- search and replacement ----------

  /** Replacing text in text, byte by byte, is replacing it character by character. */
  lemma {:induction false} ReplaceInText(cs: seq<Char>, ps: seq<Char>, rs: seq<Char>)
    requires AllChars(cs) && AllChars(ps) && ps != []
    ensures Flatten(ps) != []
    ensures ReplaceAll(Flatten(cs), Flatten(ps), Flatten(rs)) == Flatten(ReplaceAll(cs, ps, rs))
    decreases |cs|
  {
    FirstByte(ps);
    var p, r := Flatten(ps), Flatten(rs);
    if cs == [] {
    } else if Prefix(ps, cs) {
      var rest := cs[|ps|..];
      assert cs == ps + rest;
      FlattenConcat(ps, rest);
      ReplaceFront(Flatten(rest), p, r);
      ReplaceInText(rest, ps, rs);
      FlattenConcat(rs, ReplaceAll(rest, ps, rs));
    } else {
      var c, rest := cs[0], cs[1..];
      forall k: nat | k < |c|
        ensures !Prefix(p, c[k..] + Flatten(rest))
      {
        if k == 0 {
          assert c[0..] == c;
          PrefixOfText(ps, cs);
        } else {
          NotInside(c, k, Flatten(rest), ps);
        }
      }
      ReplaceCopies(c, Flatten(rest), p, r);
      ReplaceInText(rest, ps, rs);
      FlattenConcat([c], ReplaceAll(rest, ps, rs));
      FlattenOne(c);
    }
  }

  lemma NotInsideText(c: Char, k: nat, s: seq<Byte>, ps: seq<Char>)
    requires IsChar(c) && 0 < k < |c| && AllChars(ps) && ps != []
    ensures !OccursAt(Flatten(ps), c + s, k)
  {
    assert (c + s)[k..] == c[k..] + s;
    NotInside(c, k, s, ps);
  }

  /** Where text occurs in text there is a character boundary on both sides. */
  lemma {:induction false} OccurrenceOnBoundary(cs: seq<Char>, ps: seq<Char>, i: nat)
    returns (before: seq<Char>, after: seq<Char>)
    requires AllChars(cs) && AllChars(ps) && ps != [] && OccursAt(Flatten(ps), Flatten(cs), i)
    ensures cs == before + ps + after && Flatten(before) == Flatten(cs)[..i]
    ensures i + |Flatten(ps)| <= |Flatten(cs)| && Flatten(after) == Flatten(cs)[i + |Flatten(ps)|..]
    decreases |cs|
  {
    FirstByte(ps);
    var s := Flatten(cs);
    if i == 0 {
      after := AtTheFront(cs, ps);
      before := [];
    } else {
      assert cs != [];
      var c, rest := cs[0], cs[1..];
      if i < |c| {
        NotInsideText(c, i, Flatten(rest), ps);
        assert false;
        before, after := [], [];
      } else {
        assert s[i..] == Flatten(rest)[i - |c|..];
        before, after := OccurrenceOnBoundary(rest, ps, i - |c|);
        OneCharFurther(c, rest, before, ps, after, i);
        before := [c] + before;
      }
    }
  }

  lemma AtTheFront(cs: seq<Char>, ps: seq<Char>) returns (after: seq<Char>)
    requires AllChars(cs) && AllChars(ps) && OccursAt(Flatten(ps), Flatten(cs), 0)
    ensures cs == [] + ps + after
    ensures |Flatten(ps)| <= |Flatten(cs)| && Flatten(after) == Flatten(cs)[|Flatten(ps)|..]
  {
    assert Flatten(cs)[0..] == Flatten(cs);
    PrefixOfText(ps, cs);
    after := cs[|ps|..];
    assert cs == ps + after;
    FlattenConcat(ps, after);
  }

  lemma OneCharFurther(c: Char, rest: seq<Char>, before: seq<Char>, ps: seq<Char>, after: seq<Char>, i: nat)
    requires i >= |c| && rest == before + ps + after
    requires i - |c| + |Flatten(ps)| <= |Flatten(rest)|
    requires Flatten(before) == Flatten(rest)[..i - |c|] && Flatten(after) == Flatten(rest)[i - |c| + |Flatten(ps)|..]
    ensures [c] + rest == ([c] + before) + ps + after
    ensures Flatten([c] + before) == (c + Flatten(rest))[..i]
    ensures Flatten(after) == (c + Flatten(rest))[i + |Flatten(ps)|..]
  {
    assert ([c] + before)[1..] == before;
    PrependToParts(c, before, ps, after);
    DropConcat(c, Flatten(rest), i);
    DropConcat(c, Flatten(rest), i + |Flatten(ps)|);
  }

  lemma PrependToParts(c: Char, a: seq<Char>, b: seq<Char>, d: seq<Char>)
    ensures [c] + (a + b + d) == ([c] + a) + b + d
  {
  }

  lemma DropConcat(c: seq<Byte>, s: seq<Byte>, i: nat)
    requires |c| <= i <= |c| + |s|
    ensures (c + s)[..i] == c + s[..i - |c|] && (c + s)[i..] == s[i - |c|..]
  {
  }

  /** Text occurs in text as bytes exactly when it occurs as characters. */
  lemma OccursInText(ps: seq<Char>, cs: seq<Char>)
    requires AllChars(ps) && AllChars(cs) && ps != []
    ensures Occurs(Flatten(ps), Flatten(cs)) <==> Occurs(ps, cs)
  {
    if Occurs(Flatten(ps), Flatten(cs)) {
      var i: nat :| i <= |Flatten(cs)| && OccursAt(Flatten(ps), Flatten(cs), i);
      var before, after := OccurrenceOnBoundary(cs, ps, i);
      assert cs[|before|..] == ps + after;
      assert OccursAt(ps, cs, |before|);
    }
    if Occurs(ps, cs) {
      var j: nat :| j <= |cs| && OccursAt(ps, cs, j);
      var i := OccurrenceOfChars(ps, cs, j);
    }
  }

  lemma OccurrenceOfChars(ps: seq<Char>, cs: seq<Char>, j: nat) returns (i: nat)
    requires j <= |cs| && OccursAt(ps, cs, j)
    ensures i <= |Flatten(cs)| && OccursAt(Flatten(ps), Flatten(cs), i)
  {
    var before, rest := cs[..j], cs[j..];
    assert cs == before + rest;
    FlattenConcat(before, rest);
    i := |Flatten(before)|;
    assert Flatten(cs)[i..] == Flatten(rest);
    assert rest == ps + rest[|ps|..];
    FlattenConcat(ps, rest[|ps|..]);
  }

  // ---------- cutting text ----------

  lemma ValidConcat(a: seq<Byte>, b: seq<Byte>)
    requires Valid(a) && Valid(b)
    ensures Valid(a + b)
  {
    var x :| AllChars(x) && Flatten(x) == a;
    var y :| AllChars(y) && Flatten(y) == b;
    FlattenConcat(x, y);
    assert AllChars(x + y);
  }

  lemma ValidChar(c: Char)
    requires IsChar(c)
    ensures Valid(c)
  {
    FlattenOne(c);
    assert AllChars([c]);
  }

  /** Text may be cut before any byte that is no tail: both parts are text. */
  lemma CutBeforeLead(s: seq<Byte>, i: nat)
    requires Valid(s) && i <= |s| && (i < |s| ==> !Tail(s[i]))
    ensures Valid(s[..i]) && Valid(s[i..])
  {
    var cs :| AllChars(cs) && Flatten(cs) == s;
    var j := CutChars(cs, i);
    assert AllChars(cs[..j]) && AllChars(cs[j..]);
  }

  lemma {:induction false} CutChars(cs: seq<Char>, i: nat) returns (j: nat)
    requires AllChars(cs) && i <= |Flatten(cs)| && (i < |Flatten(cs)| ==> !Tail(Flatten(cs)[i]))
    ensures j <= |cs| && Flatten(cs[..j]) == Flatten(cs)[..i] && Flatten(cs[j..]) == Flatten(cs)[i..]
    decreases |cs|
  {
    if i == 0 {
      j := 0;
      assert cs[0..] == cs;
    } else {
      var c, rest := cs[0], cs[1..];
      assert cs == [c] + rest;
      ghost var s, t := Flatten(cs), Flatten(rest);
      assert s == c + t;
      CutBehind(c, t, i);
      var k := CutChars(rest, i - |c|);
      OneCutFurther(c, rest, k, i);
      j := k + 1;
    }
  }

  /** A cut that is not before a tail is not inside the first character. */
  lemma CutBehind(c: Char, s: seq<Byte>, i: nat)
    requires IsChar(c) && 0 < i <= |c + s| && (i < |c + s| ==> !Tail((c + s)[i]))
    ensures |c| <= i <= |c| + |s| && (i - |c| < |s| ==> !Tail(s[i - |c|]))
  {
    CharShape(c);
    forall k | 0 < k < |c|
      ensures Tail((c + s)[k])
    {
      assert (c + s)[k] == c[k];
    }
  }

  lemma OneCutFurther(c: Char, rest: seq<Char>, j: nat, i: nat)
    requires j <= |rest| && |c| <= i <= |c| + |Flatten(rest)|
    requires Flatten(rest[..j]) == Flatten(rest)[..i - |c|] && Flatten(rest[j..]) == Flatten(rest)[i - |c|..]
    ensures var cs := [c] + rest;
            Flatten(cs[..j + 1]) == (c + Flatten(rest))[..i] && Flatten(cs[j + 1..]) == (c + Flatten(rest))[i..]
  {
    var cs := [c] + rest;
    assert cs[..j + 1] == [c] + rest[..j] && cs[j + 1..] == rest[j..];
    FlattenConcat([c], rest[..j]);
    FlattenOne(c);
    DropConcat(c, Flatten(rest), i);
  }

  /** Where a part of text begins with a character, the byte after that character is no tail. */
  lemma AfterChar(s: seq<Byte>, c: Char)
    requires Valid(s) && IsChar(c) && Prefix(c, s)
    ensures Valid(s[|c|..])
    ensures |c| < |s| ==> !Tail(s[|c|])
  {
    var cs :| AllChars(cs) && Flatten(cs) == s;
    CharShape(c);
    assert cs != [];
    FlattenOne(c);
    assert AllChars([c]);
    PrefixOfText([c], cs);
    assert cs[0] == c by { assert cs[..1][0] == c; }
    assert s[|c|..] == Flatten(cs[1..]);
    assert AllChars(cs[1..]);
    if cs[1..] != [] {
      FirstByte(cs[1..]);
    }
  }

  /** Text that is not empty begins with a byte that is no tail. */
  lemma ValidFirst(s: seq<Byte>)
    requires Valid(s) && s != []
    ensures !Tail(s[0])
  {
    var cs :| AllChars(cs) && Flatten(cs) == s;
    FirstByte(cs);
  }
}
