/**
  `skip_trailing_space`: the generic version that reads eight bytes at a time, the
  SPARC version that reads aligned words, and the plain byte scan both must equal.
 */
module TrailingSpace {
  import opened Bits
  import opened Bytes
  import opened ByteOrder
  import opened HostMemory

  const SPACE: Byte := 0x20

  /** The plain backwards scan: how many bytes are left of `m`. */
  function PlainScan(m: seq<Byte>): (n: nat)
    ensures n <= |m| && IsTrimPoint(m, n)
  {
    if |m| > 0 && m[|m| - 1] == SPACE then PlainScan(m[..|m| - 1]) else |m|
  }

  /** Everything from `n` on is a space, and the byte before `n` is not. */
  predicate IsTrimPoint(m: seq<Byte>, n: nat) {
    && n <= |m|
    && AllSpaces(m[n..])
    && (n > 0 ==> m[n - 1] != SPACE)
  }

  predicate AllSpaces(s: seq<Byte>) {
    forall i :: 0 <= i < |s| ==> s[i] == SPACE
  }

  /** There is only one trim point. */
  lemma TrimPointUnique(m: seq<Byte>, n: nat, n': nat)
    requires IsTrimPoint(m, n) && IsTrimPoint(m, n')
    ensures n == n'
  {
  }

  /** `k` spaces spell `0x20` repeated. */
  function SpaceWord(k: nat): nat {
    if k == 0 then 0 else 0x20 + 256 * SpaceWord(k - 1)
  }

  lemma {:induction false} SpaceWordValue(s: seq<Byte>)
    requires AllSpaces(s)
    ensures Value(s) == SpaceWord(|s|)
  {
    if s != [] {
      SpaceWordValue(s[1..]);
    }
  }

  lemma SpaceWords()
    ensures SpaceWord(4) == 0x2020_2020 && SpaceWord(8) == 0x2020_2020_2020_2020
  {
    assert SpaceWord(2) == 0x2020;
    assert SpaceWord(4) == 0x2020_2020;
    assert SpaceWord(6) == 0x2020_2020_2020;
  }

  /** A word compares equal to the mask exactly when all its bytes are spaces. */
  lemma WordIsSpaces(s: seq<Byte>)
    ensures Value(s) == SpaceWord(|s|) <==> AllSpaces(s)
  {
    var t := seq(|s|, i => SPACE);
    SpaceWordValue(t);
    if Value(s) == SpaceWord(|s|) {
      ValueInjective(s, t);
    } else if AllSpaces(s) {
      SpaceWordValue(s);
    }
  }

  // ---------- generic version ----------

  /** `ptr` is offset 0 of `m`; the result is the offset of `end`. */
  method SkipTrailingSpace(m: seq<Byte>) returns (end: nat)
    ensures IsTrimPoint(m, end) && end == PlainScan(m)
  {
    end := |m|;
    SpaceWords();
    while end >= 8
      invariant end <= |m| && AllSpaces(m[end..])
    {
      WordIsSpaces(m[end - 8..end]);
      if Uint8korr(m, end - 8) != 0x2020_2020_2020_2020 {
        break;
      }
      assert m[end - 8..] == m[end - 8..end] + m[end..];
      end := end - 8;
    }
    end := TrimBytes(m, end, 0);
    TrimPointUnique(m, end, PlainScan(m));
  }

  /** The final byte loop, down to offset `start`. */
  method TrimBytes(m: seq<Byte>, from: nat, start: nat) returns (end: nat)
    requires start <= from <= |m| && AllSpaces(m[from..])
    ensures start <= end <= from && AllSpaces(m[end..])
    ensures end > start ==> m[end - 1] != SPACE
  {
    end := from;
    while end > start && m[end - 1] == SPACE
      invariant start <= end <= from && AllSpaces(m[end..])
    {
      assert m[end - 1..] == [m[end - 1]] + m[end..];
      end := end - 1;
    }
  }

  // ---------- SPARC version ----------

  /** An aligned load of a big-endian machine word; anything else would trap. */
  function ReadWord(m: seq<Byte>, ptr: nat, addr: nat, ws: nat): nat
    requires ws > 0 && addr % ws == 0
    requires ptr <= addr && addr + ws <= ptr + |m|
  {
    FromImage(Big, m[addr - ptr..addr - ptr + ws])
  }

  /** A big-endian word is the mask exactly when all its bytes are spaces. */
  lemma BigWordIsSpaces(s: seq<Byte>)
    ensures FromImage(Big, s) == SpaceWord(|s|) <==> AllSpaces(s)
  {
    WordIsSpaces(Reverse(s));
    if AllSpaces(Reverse(s)) {
      forall i | 0 <= i < |s|
        ensures s[i] == SPACE
      {
        assert Reverse(s)[|s| - 1 - i] == SPACE;
      }
    }
  }

  /** Rounding an address down to the word size. */
  lemma RoundDown(addr: nat, ws: nat)
    requires ws > 0
    ensures addr / ws * ws <= addr < addr / ws * ws + ws && addr / ws * ws % ws == 0
  {
    var q := addr / ws;
    MulCommute(q, ws);
    MulMonotone(0, q, ws);
    DivModUnique(q * ws, ws, q, 0);
  }

  /**
    The buffer `m` starts at address `ptr`, and `ws` is `SIZEOF_INT`. The buffer
    fits the 64-bit address space, so no rounding wraps. The result is the
    address `end`, one past the last byte that is not a space.
   */
  method SkipTrailingSpaceSparc(ptr: nat, m: seq<Byte>, ws: nat) returns (end: nat)
    requires ws == 4 || ws == 8
    requires ptr + |m| < TWO64
    ensures ptr <= end <= ptr + |m|
    ensures IsTrimPoint(m, end - ptr) && end - ptr == PlainScan(m)
  {
    var spaceInt := if ws == 4 then 0x2020_2020 else 0x2020_2020_2020_2020;
    SpaceWords();
    end := ptr + |m|;
    if |m| > 20 {
      end := TrimTail(ptr, m, ws, spaceInt);
    }
    var e := TrimBytes(m, end - ptr, 0);
    end := ptr + e;
    TrimPointUnique(m, end - ptr, PlainScan(m));
  }

  /** The rounded addresses, in a buffer that is long enough to hold both. */
  lemma WordAddresses(ptr: nat, len: nat, ws: nat)
    requires (ws == 4 || ws == 8) && len > 20 && ptr + len < TWO64
    ensures var endWords, startWords := U64(ptr + len) / ws * ws, U64(ptr + ws - 1) / ws * ws;
            && ptr < endWords <= ptr + len && endWords % ws == 0
            && ptr <= startWords < ptr + ws && startWords % ws == 0
  {
    assert U64(ptr + len) == ptr + len && U64(ptr + ws - 1) == ptr + ws - 1;
    RoundDown(ptr + len, ws);
    RoundDown(ptr + ws - 1, ws);
  }

  /** The bytes behind the last whole word, and the words if all of those were spaces. */
  method TrimTail(ptr: nat, m: seq<Byte>, ws: nat, spaceInt: nat) returns (end: nat)
    requires (ws == 4 || ws == 8) && spaceInt == SpaceWord(ws)
    requires |m| > 20 && ptr + |m| < TWO64
    ensures ptr <= end <= ptr + |m| && AllSpaces(m[end - ptr..])
  {
    var endWords := U64(ptr + |m|) / ws * ws;
    var startWords := U64(ptr + ws - 1) / ws * ws;
    WordAddresses(ptr, |m|, ws);
    var e := TrimBytes(m, |m|, endWords - ptr);
    end := ptr + e;
    if m[end - 1 - ptr] == SPACE && startWords < endWords {
      end := TrimWords(ptr, m, ws, startWords, end, spaceInt);
    }
  }

  /** The word loop. It is entered with `end` aligned, and stays aligned. */
  method TrimWords(ptr: nat, m: seq<Byte>, ws: nat, startWords: nat, from: nat, spaceInt: nat) returns (end: nat)
    requires ws > 0 && spaceInt == SpaceWord(ws)
    requires ptr <= startWords <= from <= ptr + |m|
    requires from % ws == 0 && startWords % ws == 0
    requires AllSpaces(m[from - ptr..])
    ensures startWords <= end <= from && end % ws == 0
    ensures AllSpaces(m[end - ptr..])
  {
    end := from;
    while end > startWords
      invariant startWords <= end <= from && end % ws == 0
      invariant AllSpaces(m[end - ptr..])
    {
      PreviousWord(end, startWords, ws);
      BigWordIsSpaces(m[end - ws - ptr..end - ptr]);
      if ReadWord(m, ptr, end - ws, ws) != spaceInt {
        break;
      }
      assert m[end - ws - ptr..] == m[end - ws - ptr..end - ptr] + m[end - ptr..];
      end := end - ws;
    }
  }

  /** Between two different aligned addresses there is a whole word. */
  lemma PreviousWord(end: nat, start: nat, ws: nat)
    requires ws > 0 && end % ws == 0 && start % ws == 0 && start < end
    ensures start <= end - ws && (end - ws) % ws == 0
  {
    var q, p := end / ws, start / ws;
    MulCommute(q, ws);
    MulCommute(p, ws);
    if q <= p {
      MulMonotone(q, p, ws);
    }
    MulMonotone(p, q - 1, ws);
    MulDistribute(q - 1, 1, ws);
    DivModUnique(end - ws, ws, q - 1, 0);
  }
}
