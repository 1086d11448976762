/**
  `api::modParser`: the printed form of a bitmask of game modifiers. Two modifiers
  replace the code of another inside the text printed so far.
 */
module ModParser {
  import opened Wrappers
  import opened Bits
  import opened Strings

  const NO_FAIL: nat := 1
  const EASY: nat := 2
  const TOUCH_DEVICE: nat := 4
  const HIDDEN: nat := 8
  const HARD_ROCK: nat := 16
  const SUDDEN_DEATH: nat := 32
  const DOUBLE_TIME: nat := 64
  const RELAX: nat := 128
  const HALF_TIME: nat := 256
  const NIGHTCORE: nat := 512
  const FLASHLIGHT: nat := 1024
  const AUTOPLAY: nat := 2048
  const SPUN_OUT: nat := 4096
  const RELAX2: nat := 8192
  const PERFECT: nat := 16384
  const KEY4: nat := 32768
  const KEY5: nat := 65536
  const KEY6: nat := 131072
  const KEY7: nat := 262144
  const KEY8: nat := 524288
  const FADE_IN: nat := 1048576
  const RANDOM: nat := 2097152
  const CINEMA: nat := 4194304
  const TARGET: nat := 8388608
  const KEY9: nat := 16777216
  const KEY_COOP: nat := 33554432
  const KEY1: nat := 67108864
  const KEY3: nat := 134217728
  const KEY2: nat := 268435456
  const SCORE_V2: nat := 536870912
  const MIRROR: nat := 1073741824

  const BITS: nat := 31

  /** The codes in the order of the flags; `NC` and `PF` replace `DT` and `SD`. */
  const CODES: seq<string> := [
    "NF", "EZ", "TD", "HD", "HR", "SD", "DT", "RX", "HT", "NC", "FL", "AT", "SO", "AP", "PF",
    "4K", "5K", "6K", "7K", "8K", "FD", "RD", "CN", "TG", "9K", "CP", "1K", "3K", "2K", "V2", "MR"
  ]

  lemma FirstCodes()
    ensures CODES[0] == "NF" && CODES[1] == "EZ" && CODES[2] == "TD" && CODES[3] == "HD" && CODES[4] == "HR"
    ensures CODES[5] == "SD" && CODES[6] == "DT" && CODES[7] == "RX" && CODES[8] == "HT"
  {
  }

  lemma MiddleCodes()
    ensures CODES[9] == "NC" && CODES[10] == "FL" && CODES[11] == "AT" && CODES[12] == "SO" && CODES[13] == "AP"
  {
  }

  lemma LastCodes()
    ensures CODES[15] == "4K" && CODES[16] == "5K" && CODES[17] == "6K" && CODES[18] == "7K" && CODES[19] == "8K"
    ensures CODES[20] == "FD" && CODES[21] == "RD" && CODES[22] == "CN" && CODES[23] == "TG" && CODES[24] == "9K"
    ensures CODES[25] == "CP" && CODES[26] == "1K" && CODES[27] == "3K" && CODES[28] == "2K" && CODES[29] == "V2"
    ensures CODES[30] == "MR"
  {
  }

  lemma FlagsArePowers()
    ensures NO_FAIL == Pow2(0) && EASY == Pow2(1) && TOUCH_DEVICE == Pow2(2) && HIDDEN == Pow2(3)
    ensures HARD_ROCK == Pow2(4) && SUDDEN_DEATH == Pow2(5) && DOUBLE_TIME == Pow2(6) && RELAX == Pow2(7)
    ensures HALF_TIME == Pow2(8) && NIGHTCORE == Pow2(9) && FLASHLIGHT == Pow2(10) && AUTOPLAY == Pow2(11)
    ensures SPUN_OUT == Pow2(12) && RELAX2 == Pow2(13) && PERFECT == Pow2(14) && KEY4 == Pow2(15)
    ensures KEY5 == Pow2(16) && KEY6 == Pow2(17) && KEY7 == Pow2(18) && KEY8 == Pow2(19)
    ensures FADE_IN == Pow2(20) && RANDOM == Pow2(21) && CINEMA == Pow2(22) && TARGET == Pow2(23)
    ensures KEY9 == Pow2(24) && KEY_COOP == Pow2(25) && KEY1 == Pow2(26) && KEY3 == Pow2(27)
    ensures KEY2 == Pow2(28) && SCORE_V2 == Pow2(29) && MIRROR == Pow2(30)
  {
    FlagsBelow16();
    assert Pow2(16) == 2 * Pow2(15);
    assert Pow2(18) == 4 * Pow2(16);
    assert Pow2(20) == 4 * Pow2(18);
    assert Pow2(22) == 4 * Pow2(20);
    assert Pow2(24) == 4 * Pow2(22);
    assert Pow2(26) == 4 * Pow2(24);
    assert Pow2(28) == 4 * Pow2(26);
    assert Pow2(30) == 4 * Pow2(28);
  }

  lemma FlagsBelow16()
    ensures forall k :: 0 <= k <= 15 ==>
              Pow2(k) == [1, 2, 4, 8, 16, 32, 64, 128, 256, 512, 1024, 2048, 4096, 8192, 16384, 32768][k]
  {
    assert Pow2(2) == 4;
    assert Pow2(4) == 16;
    assert Pow2(6) == 64;
    assert Pow2(8) == 256;
    assert Pow2(10) == 1024;
    assert Pow2(12) == 4096;
    assert Pow2(14) == 16384;
  }

  // ---------- the text of a mask ----------

  /** The 64-bit word of an `int64_t`. */
  function Word(mods: int): nat { mods % 0x1_0000_0000_0000_0000 }

  /** Which of the 31 flags are set. */
  type Flags = bits: seq<bool> | |bits| == BITS witness seq(BITS, i => false)

  function FlagsOf(mods: int): (bits: Flags)
    ensures forall k :: 0 <= k < BITS ==> bits[k] == TestBit(Word(mods), k)
  {
    seq(BITS, k requires 0 <= k < BITS => TestBit(Word(mods), k))
  }

  /** The code of flag `k` in the text, once the flags below `j` have been looked at. */
  function Piece(bits: Flags, k: nat, j: nat): (p: string)
    requires k < BITS
    ensures |p| == 0 || |p| == 2
  {
    if !bits[k] || k == 9 || k == 14 then ""
    else if k == 6 && j > 9 && bits[9] then "NC"
    else if k == 5 && j > 14 && bits[14] then "PF"
    else CODES[k]
  }

  /** The codes of all flags; a flag that is not set, or only replaces, has the empty code. */
  function Pieces(bits: Flags, j: nat): (ps: seq<string>)
    ensures |ps| == BITS && forall k :: 0 <= k < BITS ==> ps[k] == Piece(bits, k, j)
  {
    seq(BITS, k requires 0 <= k < BITS => Piece(bits, k, j))
  }

  /** The pieces from `lo` to below `hi`, in order. */
  function Part(ps: seq<string>, lo: nat, hi: nat): (s: string)
    requires lo <= hi <= |ps|
    decreases hi
  {
    if lo == hi then "" else Part(ps, lo, hi - 1) + ps[hi - 1]
  }

  /** The in-order code list of a set of flags, with NC for DT and PF for SD. */
  function CodeText(bits: Flags): string {
    Part(Pieces(bits, BITS), 0, BITS)
  }

  /** Nightcore comes with DoubleTime, and Perfect with SuddenDeath. */
  predicate Consistent(bits: Flags) {
    (bits[9] ==> bits[6]) && (bits[14] ==> bits[5])
  }

  // ---------- searching in the text ----------

  lemma PairAt(t: string, p: string, i: nat)
    requires |p| == 2 && OccursAt(p, t, i)
    ensures i + 2 <= |t| && t[i] == p[0] && t[i + 1] == p[1]
  {
    assert t[i..][..2] == p;
    assert t[i] == t[i..][..2][0] && t[i + 1] == t[i..][..2][1];
  }

  /** A pair of characters in a text to which two characters are appended. */
  lemma PairInAppend(s: string, c: string, p: string)
    requires |c| == 2 && |p| == 2 && Occurs(p, s + c)
    ensures Occurs(p, s) || c == p || (s != [] && s[|s| - 1] == p[0] && c[0] == p[1])
  {
    var t := s + c;
    var i: nat :| i <= |t| && OccursAt(p, t, i);
    PairAt(t, p, i);
    if i + 2 <= |s| {
      assert s[i..][..2] == p;
      assert OccursAt(p, s, i);
    } else if i == |s| {
      assert c == p;
    }
  }

  /** The first occurrence is right after a text that has none. */
  lemma FindAfter(a: string, p: string, rest: string)
    requires |p| == 2 && p[0] != p[1] && !Occurs(p, a)
    ensures Find(a + p + rest, p) == Some(|a|)
  {
    var t := a + p + rest;
    assert t[|a|..][..2] == p;
    assert OccursAt(p, t, |a|);
    var i := Find(t, p).value;
    PairAt(t, p, i);
    if i + 2 <= |a| {
      assert a[i..][..2] == p;
      assert OccursAt(p, a, i);
    }
  }

  /** The pieces have two characters or none. */
  predicate AreCodes(ps: seq<string>) {
    forall k :: 0 <= k < |ps| ==> ps[k] == "" || |ps[k]| == 2
  }

  /** `p` is none of the pieces below `hi`, and does not form across two of them. */
  predicate Avoids(ps: seq<string>, hi: nat, p: string)
    requires AreCodes(ps) && |p| == 2 && hi <= |ps|
  {
    && (forall k :: 0 <= k < hi ==> ps[k] != p)
    && (forall x, y :: 0 <= x < y < hi && ps[x] != "" && ps[y] != "" ==> ps[x][1] != p[0] || ps[y][0] != p[1])
  }

  /** A text ends with the second character of one of its pieces. */
  lemma {:induction false} LastCharacter(ps: seq<string>, hi: nat) returns (x: nat)
    requires AreCodes(ps) && hi <= |ps| && Part(ps, 0, hi) != ""
    ensures x < hi && ps[x] != "" && Part(ps, 0, hi)[|Part(ps, 0, hi)| - 1] == ps[x][1]
  {
    if ps[hi - 1] != "" {
      x := hi - 1;
    } else {
      assert Part(ps, 0, hi) == Part(ps, 0, hi - 1);
      x := LastCharacter(ps, hi - 1);
    }
  }

  lemma {:induction false} NeverOccurs(ps: seq<string>, hi: nat, p: string)
    requires AreCodes(ps) && |p| == 2 && hi <= |ps| && Avoids(ps, hi, p)
    ensures !Occurs(p, Part(ps, 0, hi))
  {
    if hi > 0 {
      NeverOccurs(ps, hi - 1, p);
      var s, c := Part(ps, 0, hi - 1), ps[hi - 1];
      if c == "" {
        assert s + c == s;
      } else {
        if s != "" {
          var x := LastCharacter(ps, hi - 1);
        }
        if Occurs(p, s + c) {
          PairInAppend(s, c, p);
        }
      }
    }
  }

  lemma PiecesAreCodes(bits: Flags, j: nat)
    ensures AreCodes(Pieces(bits, j))
  {
    assert forall k :: 0 <= k < BITS ==> Pieces(bits, j)[k] == Piece(bits, k, j);
  }

  /** Among the first nine codes, `T` begins only `TD`, and none of the two before it ends in `D`. */
  lemma DoubleTimeAvoided(bits: Flags, hi: nat)
    requires hi <= 9 && (hi > 6 ==> !bits[6])
    ensures AreCodes(Pieces(bits, 9)) && Avoids(Pieces(bits, 9), hi, "DT")
  {
    PiecesAreCodes(bits, 9);
    FirstNine();
  }

  lemma FirstNine()
    ensures forall k :: 0 <= k < 9 ==> CODES[k][0] == 'T' ==> k == 2
    ensures CODES[0][1] != 'D' && CODES[1][1] != 'D'
    ensures forall k :: 0 <= k < 9 && k != 6 ==> CODES[k] != "DT"
  {
  }

  /** None of the first fourteen codes ends in `S`. */
  lemma SuddenDeathAvoided(bits: Flags, hi: nat)
    requires hi <= 14 && (hi > 5 ==> !bits[5])
    ensures AreCodes(Pieces(bits, 14)) && Avoids(Pieces(bits, 14), hi, "SD")
  {
    PiecesAreCodes(bits, 14);
    FirstFourteen();
  }

  lemma FirstFourteen()
    ensures forall k :: 0 <= k < 14 ==> CODES[k][1] != 'S'
    ensures forall k :: 0 <= k < 14 && k != 5 ==> CODES[k] != "SD"
  {
  }

  lemma {:induction false} PartSplit(ps: seq<string>, lo: nat, mid: nat, hi: nat)
    requires lo <= mid <= hi <= |ps|
    ensures Part(ps, lo, hi) == Part(ps, lo, mid) + Part(ps, mid, hi)
    decreases hi
  {
    if mid < hi {
      PartSplit(ps, lo, mid, hi - 1);
      ConcatAssociative(Part(ps, lo, mid), Part(ps, mid, hi - 1), ps[hi - 1]);
    }
  }

  /** Two texts of the same pieces are the same. */
  lemma {:induction false} PartSame(ps: seq<string>, qs: seq<string>, lo: nat, hi: nat)
    requires lo <= hi <= |ps| && hi <= |qs|
    requires forall k :: lo <= k < hi ==> ps[k] == qs[k]
    ensures Part(ps, lo, hi) == Part(qs, lo, hi)
    decreases hi
  {
    if lo < hi {
      PartSame(ps, qs, lo, hi - 1);
    }
  }

  // ---------- the parser ----------

  /** The test of a flag. */
  predicate Test(mods: int, flag: nat) {
    BitAnd(Word(mods), flag) != 0
  }

  lemma TestMeaning(mods: int, k: nat)
    requires k < BITS
    ensures Test(mods, Pow2(k)) == FlagsOf(mods)[k]
  {
    AndFlag(Word(mods), k);
  }

  /** `if (mods & flag) text = text + code` */
  method Append(text: string, code: string, mods: int, flag: nat, ghost bits: Flags, ghost k: nat)
    returns (r: string, ghost next: nat)
    requires bits == FlagsOf(mods) && k < BITS && k != 9 && k != 14 && flag == Pow2(k) && code == CODES[k]
    requires text == Part(Pieces(bits, k), 0, k)
    ensures next == k + 1 && r == Part(Pieces(bits, k + 1), 0, k + 1)
  {
    next := k + 1;
    TestMeaning(mods, k);
    Appended(bits, k);
    if Test(mods, flag) {
      r := text + code;
    } else {
      r := text;
    }
  }

  lemma Appended(bits: Flags, k: nat)
    requires k < BITS && k != 9 && k != 14
    ensures Part(Pieces(bits, k + 1), 0, k + 1) == Part(Pieces(bits, k), 0, k) + (if bits[k] then CODES[k] else "")
  {
    PartSame(Pieces(bits, k), Pieces(bits, k + 1), 0, k);
  }

  /** The text with the pair at its first place replaced; `None` is the exception of `replace` at `npos`. */
  function ReplaceFirst(s: string, p: string, q: string): Option<string>
    requires |p| == 2
  {
    match Find(s, p)
    case None => None
    case Some(i) => Some(s[..i] + q + s[i + 2..])
  }

  /** The two flags that replace, with the flag whose code they replace. */
  predicate IsReplacement(k: nat, d: nat, from: string, to: string) {
    (k == 9 && d == 6 && from == "DT" && to == "NC") || (k == 14 && d == 5 && from == "SD" && to == "PF")
  }

  /** `if (mods & flag) text = text.replace(text.find(from), 2, to)` */
  method Replace(text: string, from: string, to: string, mods: int, flag: nat,
                 ghost bits: Flags, ghost k: nat, ghost d: nat)
    returns (r: Option<string>, ghost next: nat)
    requires bits == FlagsOf(mods) && IsReplacement(k, d, from, to) && flag == Pow2(k)
    requires text == Part(Pieces(bits, k), 0, k)
    ensures r.None? <==> bits[k] && !bits[d]
    ensures next == k + 1 && (r.Some? ==> r.value == Part(Pieces(bits, k + 1), 0, k + 1))
  {
    next := k + 1;
    TestMeaning(mods, k);
    if Test(mods, flag) {
      ReplaceMeaning(bits, k, d, from, to);
      r := ReplaceFirst(text, from, to);
    } else {
      NotReplaced(bits, k);
      r := Some(text);
    }
  }

  /** Without the flag that replaces, the text stays as it is. */
  lemma NotReplaced(bits: Flags, k: nat)
    requires (k == 9 || k == 14) && !bits[k]
    ensures Part(Pieces(bits, k + 1), 0, k + 1) == Part(Pieces(bits, k), 0, k)
  {
    PartSame(Pieces(bits, k), Pieces(bits, k + 1), 0, k);
  }

  /** The search finds the code of its own flag, or nothing. */
  lemma ReplaceMeaning(bits: Flags, k: nat, d: nat, from: string, to: string)
    requires IsReplacement(k, d, from, to) && bits[k]
    ensures ReplaceFirst(Part(Pieces(bits, k), 0, k), from, to)
         == if bits[d] then Some(Part(Pieces(bits, k + 1), 0, k + 1)) else None
  {
    if bits[d] {
      Unreplaced(bits, k, d, from, to);
      Replaced(bits, k, d, from, to);
      FromAvoided(bits, k, d, from, to, d);
      ReplaceAt(Part(Pieces(bits, k), 0, d), from, to, Part(Pieces(bits, k), d + 1, k));
    } else {
      FromAvoided(bits, k, d, from, to, k);
    }
  }

  lemma ReplaceAt(a: string, p: string, q: string, rest: string)
    requires |p| == 2 && p[0] != p[1] && !Occurs(p, a)
    ensures ReplaceFirst(a + p + rest, p, q) == Some(a + q + rest)
  {
    FindAfter(a, p, rest);
    assert (a + p + rest)[..|a|] == a && (a + p + rest)[|a| + 2..] == rest;
  }

  /** The code to be replaced comes only from its own flag: it never forms across two codes. */
  lemma FromAvoided(bits: Flags, k: nat, d: nat, from: string, to: string, hi: nat)
    requires IsReplacement(k, d, from, to) && hi <= k && (hi > d ==> !bits[d])
    ensures !Occurs(from, Part(Pieces(bits, k), 0, hi))
  {
    if k == 9 {
      DoubleTimeAvoided(bits, hi);
    } else {
      SuddenDeathAvoided(bits, hi);
    }
    NeverOccurs(Pieces(bits, k), hi, from);
  }

  lemma SplitAround(ps: seq<string>, d: nat, hi: nat)
    requires d < hi <= |ps|
    ensures Part(ps, 0, hi) == Part(ps, 0, d) + ps[d] + Part(ps, d + 1, hi)
  {
    PartSplit(ps, 0, d, hi);
    PartSplit(ps, d, d + 1, hi);
    assert Part(ps, d, d + 1) == "" + ps[d];
    ConcatAssociative(Part(ps, 0, d), ps[d], Part(ps, d + 1, hi));
  }

  /** The text before the replacement, cut at the code to be replaced. */
  lemma Unreplaced(bits: Flags, k: nat, d: nat, from: string, to: string)
    requires IsReplacement(k, d, from, to) && bits[d]
    ensures Part(Pieces(bits, k), 0, k) == Part(Pieces(bits, k), 0, d) + from + Part(Pieces(bits, k), d + 1, k)
  {
    SplitAround(Pieces(bits, k), d, k);
    assert Pieces(bits, k)[d] == Piece(bits, d, k);
    if k == 9 {
      assert CODES[6] == "DT";
    } else {
      assert CODES[5] == "SD";
    }
  }

  /** The text after the replacement, cut at the replaced code. */
  lemma Replaced(bits: Flags, k: nat, d: nat, from: string, to: string)
    requires IsReplacement(k, d, from, to) && bits[k] && bits[d]
    ensures Part(Pieces(bits, k + 1), 0, k + 1) == Part(Pieces(bits, k), 0, d) + to + Part(Pieces(bits, k), d + 1, k)
  {
    var ps, qs := Pieces(bits, k), Pieces(bits, k + 1);
    ReplacedPieces(bits, k, d, from, to);
    PartSame(ps, qs, 0, d);
    PartSame(ps, qs, d + 1, k);
    SplitAround(qs, d, k);
  }

  /** Only the replaced code changes. */
  lemma ReplacedPieces(bits: Flags, k: nat, d: nat, from: string, to: string)
    requires IsReplacement(k, d, from, to) && bits[k] && bits[d]
    ensures forall i :: 0 <= i < k && i != d ==> Pieces(bits, k)[i] == Pieces(bits, k + 1)[i]
    ensures Pieces(bits, k + 1)[d] == to && Pieces(bits, k + 1)[k] == ""
  {
  }

  /** `None` is an exception. */
  method ModParser(mods: int) returns (r: Option<string>)
    requires -0x8000_0000_0000_0000 <= mods < 0x8000_0000_0000_0000
    ensures r.None? <==>
              || (TestBit(Word(mods), 9) && !TestBit(Word(mods), 6))
              || (TestBit(Word(mods), 14) && !TestBit(Word(mods), 5))
    ensures r.None? <==> !Consistent(FlagsOf(mods))
    ensures r.Some? ==> r.value == Text(mods)
  {
    if mods == 0 {
      NoFlags();
      return Some("NM");
    }
    FlagsArePowers();
    MiddleCodes();
    ghost var bits := FlagsOf(mods);
    ghost var k := 9;
    var text := AppendFirst(mods, bits);
    var replaced: Option<string>;
    replaced, k := Replace(text, "DT", "NC", mods, NIGHTCORE, bits, k, 6);
    if replaced.None? {
      return None;
    }
    text := replaced.value;
    text, k := Append(text, "FL", mods, FLASHLIGHT, bits, k);
    text, k := Append(text, "AT", mods, AUTOPLAY, bits, k);
    text, k := Append(text, "SO", mods, SPUN_OUT, bits, k);
    text, k := Append(text, "AP", mods, RELAX2, bits, k);
    replaced, k := Replace(text, "SD", "PF", mods, PERFECT, bits, k, 5);
    if replaced.None? {
      return None;
    }
    text := replaced.value;
    text := AppendRest(text, mods, bits, k);
    r := Some(text);
  }

  /** The flags before SuddenDeath. */
  method AppendEarliest(mods: int, ghost bits: Flags) returns (text: string)
    requires bits == FlagsOf(mods)
    ensures text == Part(Pieces(bits, 5), 0, 5)
  {
    FlagsArePowers();
    FirstCodes();
    ghost var k := 0;
    text := "";
    text, k := Append(text, "NF", mods, NO_FAIL, bits, k);
    text, k := Append(text, "EZ", mods, EASY, bits, k);
    text, k := Append(text, "TD", mods, TOUCH_DEVICE, bits, k);
    text, k := Append(text, "HD", mods, HIDDEN, bits, k);
    text, k := Append(text, "HR", mods, HARD_ROCK, bits, k);
  }

  /** The flags before Nightcore, which only append. */
  method AppendFirst(mods: int, ghost bits: Flags) returns (text: string)
    requires bits == FlagsOf(mods)
    ensures text == Part(Pieces(bits, 9), 0, 9)
  {
    FlagsArePowers();
    FirstCodes();
    ghost var k := 5;
    text := AppendEarliest(mods, bits);
    text, k := Append(text, "SD", mods, SUDDEN_DEATH, bits, k);
    text, k := Append(text, "DT", mods, DOUBLE_TIME, bits, k);
    text, k := Append(text, "RX", mods, RELAX, bits, k);
    text, k := Append(text, "HT", mods, HALF_TIME, bits, k);
  }

  /** The flags after Perfect, which only append. */
  method AppendRest(start: string, mods: int, ghost bits: Flags, ghost from: nat) returns (text: string)
    requires bits == FlagsOf(mods) && from == 15 && start == Part(Pieces(bits, from), 0, from)
    ensures text == Part(Pieces(bits, BITS), 0, BITS)
  {
    FlagsArePowers();
    LastCodes();
    text := start;
    ghost var k := from;
    text, k := Append(text, "4K", mods, KEY4, bits, k);
    text, k := Append(text, "5K", mods, KEY5, bits, k);
    text, k := Append(text, "6K", mods, KEY6, bits, k);
    text, k := Append(text, "7K", mods, KEY7, bits, k);
    text, k := Append(text, "8K", mods, KEY8, bits, k);
    text, k := Append(text, "FD", mods, FADE_IN, bits, k);
    text, k := Append(text, "RD", mods, RANDOM, bits, k);
    text, k := Append(text, "CN", mods, CINEMA, bits, k);
    text, k := Append(text, "TG", mods, TARGET, bits, k);
    text, k := Append(text, "9K", mods, KEY9, bits, k);
    text, k := Append(text, "CP", mods, KEY_COOP, bits, k);
    text, k := Append(text, "1K", mods, KEY1, bits, k);
    text, k := Append(text, "3K", mods, KEY3, bits, k);
    text, k := Append(text, "2K", mods, KEY2, bits, k);
    text, k := Append(text, "V2", mods, SCORE_V2, bits, k);
    text, k := Append(text, "MR", mods, MIRROR, bits, k);
  }

  lemma NoFlags()
    ensures Consistent(FlagsOf(0))
  {
    DivModUnique(0, Pow2(9), 0, 0);
    DivModUnique(0, Pow2(14), 0, 0);
  }

  /** Nightcore alone is a mask that throws. */
  method NightcoreAlone() returns (r: Option<string>)
    ensures r.None?
  {
    FlagsArePowers();
    assert Word(NIGHTCORE) == NIGHTCORE;
    FlagAlone(9, 6);
    r := ModParser(NIGHTCORE);
  }

  /** A power of two has no other flag. */
  lemma FlagAlone(k: nat, j: nat)
    requires j < k
    ensures TestBit(Pow2(k), k) && !TestBit(Pow2(k), j)
  {
    DivModUnique(Pow2(k), Pow2(k), 1, 0);
    PowQuotient(k, j);
  }

  lemma {:induction false} PowQuotient(k: nat, j: nat)
    requires j < k
    ensures Pow2(k) / Pow2(j) == 2 * Pow2(k - j - 1)
    decreases j
  {
    if j == 0 {
      assert Pow2(k) / 1 == Pow2(k);
    } else {
      PowQuotient(k - 1, j - 1);
      DivDiv(Pow2(k), 2, Pow2(j - 1));
    }
  }

  // ---------- reading the text back ----------

  /** The flags that a code stands for. */
  function CodeValue(a: char, b: char): nat {
    if a == 'N' && b == 'F' then NO_FAIL
    else if a == 'E' && b == 'Z' then EASY
    else if a == 'T' && b == 'D' then TOUCH_DEVICE
    else if a == 'H' && b == 'D' then HIDDEN
    else if a == 'H' && b == 'R' then HARD_ROCK
    else if a == 'S' && b == 'D' then SUDDEN_DEATH
    else if a == 'D' && b == 'T' then DOUBLE_TIME
    else if a == 'R' && b == 'X' then RELAX
    else if a == 'H' && b == 'T' then HALF_TIME
    else if a == 'N' && b == 'C' then DOUBLE_TIME + NIGHTCORE
    else if a == 'F' && b == 'L' then FLASHLIGHT
    else if a == 'A' && b == 'T' then AUTOPLAY
    else if a == 'S' && b == 'O' then SPUN_OUT
    else if a == 'A' && b == 'P' then RELAX2
    else if a == 'P' && b == 'F' then SUDDEN_DEATH + PERFECT
    else if a == '4' && b == 'K' then KEY4
    else if a == '5' && b == 'K' then KEY5
    else if a == '6' && b == 'K' then KEY6
    else if a == '7' && b == 'K' then KEY7
    else if a == '8' && b == 'K' then KEY8
    else if a == 'F' && b == 'D' then FADE_IN
    else if a == 'R' && b == 'D' then RANDOM
    else if a == 'C' && b == 'N' then CINEMA
    else if a == 'T' && b == 'G' then TARGET
    else if a == '9' && b == 'K' then KEY9
    else if a == 'C' && b == 'P' then KEY_COOP
    else if a == '1' && b == 'K' then KEY1
    else if a == '3' && b == 'K' then KEY3
    else if a == '2' && b == 'K' then KEY2
    else if a == 'V' && b == '2' then SCORE_V2
    else if a == 'M' && b == 'R' then MIRROR
    else 0
  }

  function Decode(s: string): nat {
    if |s| < 2 then 0 else CodeValue(s[0], s[1]) + Decode(s[2..])
  }

  /** The code that flag `k` appends stands for the flag. */
  lemma CodeOfFlag(k: nat)
    requires k < BITS && k != 9 && k != 14
    ensures |CODES[k]| == 2 && CodeValue(CODES[k][0], CODES[k][1]) == Pow2(k)
  {
    if k < 8 {
      CodeOfFirst(k);
    } else if k < 15 {
      CodeOfMiddle(k);
    } else if k < 23 {
      CodeOfKeys(k);
    } else if k < 27 {
      CodeOfCoop(k);
    } else {
      CodeOfLast(k);
    }
  }

  lemma CodeOfFirst(k: nat)
    requires k < 8
    ensures |CODES[k]| == 2 && CodeValue(CODES[k][0], CODES[k][1]) == Pow2(k)
  {
    FlagsArePowers();
    FirstCodes();
  }

  lemma CodeOfMiddle(k: nat)
    requires 8 <= k < 15 && k != 9 && k != 14
    ensures |CODES[k]| == 2 && CodeValue(CODES[k][0], CODES[k][1]) == Pow2(k)
  {
    FlagsArePowers();
    FirstCodes();
    MiddleCodes();
  }

  lemma CodeOfKeys(k: nat)
    requires 15 <= k < 23
    ensures |CODES[k]| == 2 && CodeValue(CODES[k][0], CODES[k][1]) == Pow2(k)
  {
    FlagsArePowers();
    LastCodes();
  }

  lemma CodeOfCoop(k: nat)
    requires 23 <= k < 27
    ensures |CODES[k]| == 2 && CodeValue(CODES[k][0], CODES[k][1]) == Pow2(k)
  {
    FlagsArePowers();
    LastCodes();
  }

  lemma CodeOfLast(k: nat)
    requires 27 <= k < BITS
    ensures |CODES[k]| == 2 && CodeValue(CODES[k][0], CODES[k][1]) == Pow2(k)
  {
    FlagsArePowers();
    LastCodes();
  }

  lemma {:induction false} DecodeAppend(s: string, c: string)
    requires |s| % 2 == 0 && |c| == 2
    ensures Decode(s + c) == Decode(s) + CodeValue(c[0], c[1])
  {
    if s == "" {
      assert s + c == c;
    } else {
      DecodeAppend(s[2..], c);
      assert (s + c)[2..] == s[2..] + c;
    }
  }

  lemma {:induction false} PartIsEven(ps: seq<string>, hi: nat)
    requires AreCodes(ps) && hi <= |ps|
    ensures |Part(ps, 0, hi)| % 2 == 0
  {
    if hi > 0 {
      PartIsEven(ps, hi - 1);
    }
  }

  /** The flags below `hi` as a number. */
  function Sum(bits: Flags, hi: nat): nat
    requires hi <= BITS
  {
    if hi == 0 then 0 else Sum(bits, hi - 1) + (if bits[hi - 1] then Pow2(hi - 1) else 0)
  }

  /** What `NC` and `PF` say ahead of the flags that put them there. */
  function Ahead(bits: Flags, hi: nat): nat {
    (if 6 < hi <= 9 && bits[9] then NIGHTCORE else 0) + (if 5 < hi <= 14 && bits[14] then PERFECT else 0)
  }

  lemma {:induction false} DecodeOfPart(bits: Flags, hi: nat)
    requires Consistent(bits) && hi <= BITS
    ensures Decode(Part(Pieces(bits, BITS), 0, hi)) == Sum(bits, hi) + Ahead(bits, hi)
  {
    if hi > 0 {
      var k, ps := hi - 1, Pieces(bits, BITS);
      DecodeOfPart(bits, k);
      PiecesAreCodes(bits, BITS);
      PartIsEven(ps, k);
      var s, c := Part(ps, 0, k), ps[k];
      PieceValue(bits, k);
      if c == "" {
        assert s + c == s;
      } else {
        DecodeAppend(s, c);
        assert c[2..] == "";
      }
    }
  }

  /** One piece stands for its flag, and for the flag that replaced its code. */
  lemma PieceValue(bits: Flags, k: nat)
    requires Consistent(bits) && k < BITS
    ensures Decode(Piece(bits, k, BITS)) + Ahead(bits, k) == (if bits[k] then Pow2(k) else 0) + Ahead(bits, k + 1)
  {
    FlagsArePowers();
    if k != 9 && k != 14 {
      CodeOfFlag(k);
    }
    var c := Piece(bits, k, BITS);
    assert c != "" ==> c[2..] == "";
  }

  /** The sum of the flags is the low part of the word. */
  lemma {:induction false} SumOfWord(mods: int, hi: nat)
    requires hi <= BITS
    ensures Sum(FlagsOf(mods), hi) == Word(mods) % Pow2(hi)
  {
    if hi > 0 {
      SumOfWord(mods, hi - 1);
      LowDigits(Word(mods), hi - 1);
    } else {
      DivModUnique(Word(mods), 1, Word(mods), 0);
    }
  }

  /** One more binary digit of a number. */
  lemma LowDigits(a: nat, k: nat)
    ensures a % Pow2(k + 1) == a % Pow2(k) + (if TestBit(a, k) then Pow2(k) else 0)
  {
    var p := Pow2(k);
    var q, r := a / p, a % p;
    var h, b := q / 2, q % 2;
    MulCommute(q, p);
    MulDistribute(h * 2, b, p);
    MulAssoc(h, 2, p);
    assert a == h * (2 * p) + (b * p + r);
    assert b * p == if b == 1 then p else 0;
    DivModUnique(a, 2 * p, h, b * p + r);
  }

  /** The text of a mask that prints without an exception says all its 31 low flags. */
  lemma DecodeOfText(mods: int)
    requires Consistent(FlagsOf(mods))
    ensures Decode(CodeText(FlagsOf(mods))) == Word(mods) % Pow2(BITS)
  {
    DecodeOfPart(FlagsOf(mods), BITS);
    SumOfWord(mods, BITS);
  }

  /** What `modParser` prints. */
  function Text(mods: int): string {
    if mods == 0 then "NM" else CodeText(FlagsOf(mods))
  }

  /** The flags of two words with the same low part. */
  lemma {:induction false} SameLowFlags(a: nat, b: nat, w: nat)
    requires a % Pow2(w) == b % Pow2(w)
    ensures forall k :: 0 <= k < w ==> TestBit(a, k) == TestBit(b, k)
  {
    if w > 0 {
      LowDigits(a, w - 1);
      LowDigits(b, w - 1);
      SameLowFlags(a, b, w - 1);
    }
  }

  lemma SameFlags(m1: int, m2: int)
    requires Word(m1) % Pow2(BITS) == Word(m2) % Pow2(BITS)
    ensures FlagsOf(m1) == FlagsOf(m2)
  {
    SameLowFlags(Word(m1), Word(m2), BITS);
  }

  lemma {:induction false} NoPieces(ps: seq<string>, hi: nat)
    requires hi <= |ps| && forall k :: 0 <= k < hi ==> ps[k] == ""
    ensures Part(ps, 0, hi) == ""
  {
    if hi > 0 {
      NoPieces(ps, hi - 1);
    }
  }

  lemma NoFlagsNoText()
    ensures Consistent(FlagsOf(0)) && CodeText(FlagsOf(0)) == "" && Word(0) == 0
  {
    forall k | 0 <= k < BITS
      ensures !FlagsOf(0)[k]
    {
      DivModUnique(0, Pow2(k), 0, 0);
    }
    NoPieces(Pieces(FlagsOf(0), BITS), BITS);
  }

  // ---------- the order of the text ----------

  /** Flag `k` has a code of its own in the text. */
  predicate IsPrinted(mods: int, k: nat) {
    k < BITS && k != 9 && k != 14 && TestBit(Word(mods), k)
  }

  /** How many flags below `k` have one. */
  function PrintedBelow(mods: int, k: nat): nat {
    if k == 0 then 0 else PrintedBelow(mods, k - 1) + (if IsPrinted(mods, k - 1) then 1 else 0)
  }

  /** The code of flag `k`, in a text that is complete. */
  function FinalCode(mods: int, k: nat): string
    requires k < BITS
  {
    if k == 6 && TestBit(Word(mods), 9) then "NC"
    else if k == 5 && TestBit(Word(mods), 14) then "PF"
    else CODES[k]
  }

  lemma {:induction false} LengthOfPart(mods: int, k: nat)
    requires k <= BITS
    ensures |Part(Pieces(FlagsOf(mods), BITS), 0, k)| == 2 * PrintedBelow(mods, k)
  {
    if k > 0 {
      LengthOfPart(mods, k - 1);
      PieceIsCode(mods, k - 1);
    }
  }

  lemma PieceIsCode(mods: int, k: nat)
    requires k < BITS
    ensures Piece(FlagsOf(mods), k, BITS) == if IsPrinted(mods, k) then FinalCode(mods, k) else ""
    ensures |FinalCode(mods, k)| == 2
  {
  }

  /**
    The codes stand in the order of the flags: the code of a printed flag is at
    twice the number of printed flags below it, and there is nothing else.
   */
  lemma CodeInPlace(mods: int, k: nat)
    requires mods != 0 && IsPrinted(mods, k)
    ensures var at := 2 * PrintedBelow(mods, k);
            at + 2 <= |Text(mods)| == 2 * PrintedBelow(mods, BITS) && Text(mods)[at..at + 2] == FinalCode(mods, k)
  {
    var ps := Pieces(FlagsOf(mods), BITS);
    LengthOfPart(mods, k);
    LengthOfPart(mods, BITS);
    PieceIsCode(mods, k);
    SplitAround(ps, k, BITS);
    MiddleSlice(Part(ps, 0, k), ps[k], Part(ps, k + 1, BITS));
  }

  lemma MiddleSlice(a: string, b: string, c: string)
    ensures (a + b + c)[|a|..|a| + |b|] == b
  {
  }

  /** Hidden and Flashlight print as `HDFL`. */
  method HiddenFlashlight() returns (r: Option<string>)
    ensures r == Some("HDFL")
  {
    var m := HIDDEN + FLASHLIGHT;
    TwoPrinted();
    CodeInPlace(m, 3);
    CodeInPlace(m, 10);
    FirstCodes();
    MiddleCodes();
    TwoPairs(Text(m));
    TwoFlags(9);
    TwoFlags(14);
    r := ModParser(m);
  }

  lemma TwoPairs(t: string)
    requires |t| == 4 && t[0..2] == "HD" && t[2..4] == "FL"
    ensures t == "HDFL"
  {
    assert t == t[0..2] + t[2..4];
  }

  lemma TwoPrinted()
    ensures var m := HIDDEN + FLASHLIGHT;
            && IsPrinted(m, 3) && IsPrinted(m, 10)
            && PrintedBelow(m, 3) == 0 && PrintedBelow(m, 10) == 1 && PrintedBelow(m, BITS) == 2
  {
    var m := HIDDEN + FLASHLIGHT;
    forall k | 0 <= k < BITS
      ensures IsPrinted(m, k) <==> k == 3 || k == 10
    {
      TwoFlags(k);
    }
    CountBetween(m, 0, 3);
    CountBetween(m, 4, 10);
    CountBetween(m, 11, BITS);
    assert PrintedBelow(m, 4) == PrintedBelow(m, 3) + 1;
    assert PrintedBelow(m, 11) == PrintedBelow(m, 10) + 1;
  }

  lemma {:induction false} CountBetween(m: int, lo: nat, hi: nat)
    requires lo <= hi && forall k :: lo <= k < hi ==> !IsPrinted(m, k)
    ensures PrintedBelow(m, hi) == PrintedBelow(m, lo)
    decreases hi
  {
    if lo < hi {
      CountBetween(m, lo, hi - 1);
    }
  }

  lemma TwoFlags(k: nat)
    requires k < BITS
    ensures TestBit(Word(HIDDEN + FLASHLIGHT), k) <==> k == 3 || k == 10
  {
    FlagsArePowers();
    FlagsBelow16();
    if k > 10 {
      Pow2Monotone(11, k);
      DivModUnique(1032, Pow2(k), 0, 1032);
    }
  }

  /**
    For all masks that print without an exception: two texts are the same if and
    only if the masks have the same 31 low flags and both or neither are zero.
   */
  lemma SameTextExactly(m1: int, m2: int)
    requires Consistent(FlagsOf(m1)) && Consistent(FlagsOf(m2))
    ensures Text(m1) == Text(m2)
       <==> (m1 == 0 <==> m2 == 0) && Word(m1) % Pow2(BITS) == Word(m2) % Pow2(BITS)
  {
    TextSaysZero(m1);
    TextSaysZero(m2);
    DecodeOfText(m1);
    DecodeOfText(m2);
    if Word(m1) % Pow2(BITS) == Word(m2) % Pow2(BITS) {
      SameFlags(m1, m2);
    }
  }

  /** Only zero prints as `NM`. */
  lemma TextSaysZero(m: int)
    requires Consistent(FlagsOf(m))
    ensures Text(m) == "NM" <==> m == 0
    ensures m == 0 ==> Word(m) % Pow2(BITS) == 0
  {
    NoFlagsNoText();
    DecodeOfText(0);
    DecodeOfText(m);
    NotNothing();
    if m != 0 && CodeText(FlagsOf(m)) == "NM" {
      SameFlags(m, 0);
    }
  }

  lemma NotNothing()
    ensures Decode("NM") == 0 && Decode("") == 0
  {
    assert "NM"[2..] == "";
  }

  /** Two consistent masks of the 31 flags, zero or not, print the same text only if they are equal. */
  lemma TextIsInjective(m1: int, m2: int)
    requires 0 <= m1 < Pow2(BITS) && 0 <= m2 < Pow2(BITS)
    requires Consistent(FlagsOf(m1)) && Consistent(FlagsOf(m2))
    requires Text(m1) == Text(m2)
    ensures m1 == m2
  {
    SameTextExactly(m1, m2);
    LowMask(m1);
    LowMask(m2);
  }

  lemma LowMask(m: nat)
    requires m < Pow2(BITS)
    ensures Word(m) % Pow2(BITS) == m
  {
    FlagsArePowers();
    assert Pow2(31) == 2 * Pow2(30);
    DivModUnique(m, 0x1_0000_0000_0000_0000, 0, m);
    DivModUnique(m, Pow2(BITS), 0, m);
  }
}
