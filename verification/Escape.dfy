/**
  `utils::ocescape` and `utils::ocunescape`: quotation marks are written as marks in
  the text of a bottle when it is stored, and come back when it is picked.
 */
module Escape {
  import opened Strings

  const DOUBLE_MARK: string := "[OC:character,id=1]"
  const SINGLE_MARK: string := "[OC:character,id=2]"

  /** The texts as the two functions make them. */
  function Escaped(s: string): string {
    ReplaceAll(ReplaceAll(s, "\"", DOUBLE_MARK), "'", SINGLE_MARK)
  }

  function Unescaped(s: string): string {
    ReplaceAll(ReplaceAll(s, DOUBLE_MARK, "\""), SINGLE_MARK, "'")
  }

  method OcEscape(str: string) returns (res: string)
    ensures res == Escaped(str)
  {
    res := StringReplace(str, "\"", DOUBLE_MARK);
    res := StringReplace(res, "'", SINGLE_MARK);
  }

  method OcUnescape(str: string) returns (res: string)
    ensures res == Unescaped(str)
  {
    res := StringReplace(str, DOUBLE_MARK, "\"");
    res := StringReplace(res, SINGLE_MARK, "'");
  }

  // ---------- marks ----------

  predicate IsQuote(c: char) { c == '"' || c == '\'' }

  /** A bracket that does not come again, and no quotation marks: marks cannot overlap. */
  predicate IsMark(m: string) {
    |m| > 1 && m[0] == '[' && NoBracket(m[1..])
  }

  predicate NoBracket(q: string) {
    forall i :: 0 <= i < |q| ==> q[i] != '[' && !IsQuote(q[i])
  }

  /** Two marks of one length. */
  predicate AreMarks(m1: string, m2: string) {
    IsMark(m1) && IsMark(m2) && |m1| == |m2| && m1 != m2
  }

  lemma TheMarks()
    ensures AreMarks(DOUBLE_MARK, SINGLE_MARK)
  {
    DoubleIsMark();
    SingleIsMark();
    assert DOUBLE_MARK[17] != SINGLE_MARK[17];
  }

  lemma DoubleIsMark()
    ensures IsMark(DOUBLE_MARK) && |DOUBLE_MARK| == 19
  {
    assert DOUBLE_MARK[1..] == "OC:character,id=1]";
  }

  lemma SingleIsMark()
    ensures IsMark(SINGLE_MARK) && |SINGLE_MARK| == 19
  {
    assert SINGLE_MARK[1..] == "OC:character,id=2]";
  }

  lemma MarkChar(m: string, k: nat)
    requires IsMark(m) && k < |m|
    ensures !IsQuote(m[k]) && (m[k] == '[' <==> k == 0)
  {
    assert k > 0 ==> m[k] == m[1..][k - 1];
  }

  lemma PrefixHead(p: string, s: string)
    requires p != [] && Prefix(p, s)
    ensures s != [] && s[0] == p[0] && Prefix(p[1..], s[1..])
  {
    assert s[..|p|][0] == p[0];
    assert s[1..][..|p| - 1] == s[..|p|][1..];
  }

  lemma PrefixCons(p: string, s: string)
    requires p != [] && s != [] && s[0] == p[0] && Prefix(p[1..], s[1..])
    ensures Prefix(p, s)
  {
    assert s[..|p|] == [s[0]] + s[1..][..|p| - 1];
  }

  /** No mark begins where another character stands. */
  lemma NoMarkHere(m: string, s: string)
    requires IsMark(m) && s != [] && s[0] != '['
    ensures !Prefix(m, s)
  {
    if Prefix(m, s) {
      PrefixHead(m, s);
    }
  }

  /** Only one of two marks begins a text. */
  lemma OneMark(m1: string, m2: string, s: string)
    requires |m1| == |m2| && m1 != m2 && Prefix(m2, s)
    ensures !Prefix(m1, s)
  {
  }

  /** A mark begins nowhere in the other mark. */
  lemma NoMarkInMark(m1: string, m2: string, s: string)
    requires AreMarks(m1, m2)
    ensures forall k: nat :: k < |m2| ==> !Prefix(m1, m2[k..] + s)
  {
    forall k: nat | k < |m2|
      ensures !Prefix(m1, m2[k..] + s)
    {
      var t := m2[k..] + s;
      assert t[0] == m2[k];
      MarkChar(m2, k);
      if k == 0 {
        assert t[..|m2|] == m2;
        OneMark(m1, m2, t);
      } else {
        NoMarkHere(m1, t);
      }
    }
  }

  // ---------- escaping ----------

  /** Every quotation mark as its mark. */
  function Marked(s: string, m1: string, m2: string): string {
    if s == [] then []
    else (if s[0] == '"' then m1 else if s[0] == '\'' then m2 else [s[0]]) + Marked(s[1..], m1, m2)
  }

  lemma {:induction false} EscapedIsMarked(s: string, m1: string, m2: string)
    requires AreMarks(m1, m2)
    ensures ReplaceAll(ReplaceAll(s, "\"", m1), "'", m2) == Marked(s, m1, m2)
  {
    if s != [] {
      var rest := ReplaceAll(s[1..], "\"", m1);
      EscapedIsMarked(s[1..], m1, m2);
      if s[0] == '"' {
        assert s[..1] == "\"";
        NoQuoteInMark(m1, rest);
        ReplaceCopies(m1, rest, "'", m2);
      } else {
        assert !Prefix("\"", s) by { assert s[..1][0] == s[0]; }
        ReplaceHead(s[0], rest, m2);
      }
    }
  }

  lemma NoQuoteInMark(m: string, s: string)
    requires IsMark(m)
    ensures forall k: nat :: k < |m| ==> !Prefix("'", m[k..] + s)
  {
    forall k: nat | k < |m|
      ensures !Prefix("'", m[k..] + s)
    {
      MarkChar(m, k);
      assert (m[k..] + s)[..1][0] == m[k];
    }
  }

  lemma ReplaceHead(c: char, rest: string, m: string)
    ensures ReplaceAll([c] + rest, "'", m) == (if c == '\'' then m else [c]) + ReplaceAll(rest, "'", m)
  {
    var s := [c] + rest;
    assert s[..1] == [c] && s[1..] == rest;
  }

  /** Characters at the front of the marked text that begin no mark and are no quotation marks were there before. */
  lemma {:induction false} TailOfMarked(q: string, s: string, m1: string, m2: string)
    requires AreMarks(m1, m2) && NoBracket(q) && Prefix(q, Marked(s, m1, m2))
    ensures Prefix(q, s)
  {
    if q != [] {
      var m := Marked(s, m1, m2);
      PrefixHead(q, m);
      assert m[0] == q[0] && q[0] != '[';
      MarkedHead(s, m1, m2);
      TailOfMarked(q[1..], s[1..], m1, m2);
      PrefixCons(q, s);
    }
  }

  lemma MarkedHead(s: string, m1: string, m2: string)
    requires AreMarks(m1, m2) && Marked(s, m1, m2) != []
    ensures s != []
    ensures IsQuote(s[0]) ==> Marked(s, m1, m2)[0] == '['
    ensures !IsQuote(s[0]) ==> Marked(s, m1, m2) == [s[0]] + Marked(s[1..], m1, m2)
    ensures !IsQuote(s[0]) ==> Marked(s, m1, m2)[0] == s[0] && Marked(s, m1, m2)[1..] == Marked(s[1..], m1, m2)
  {
  }

  /** Text without quotation marks is copied. */
  lemma {:induction false} MarkedCopies(a: string, s: string, m1: string, m2: string)
    requires forall i :: 0 <= i < |a| ==> !IsQuote(a[i])
    ensures Marked(a + s, m1, m2) == a + Marked(s, m1, m2)
  {
    if a == [] {
      assert a + s == s;
    } else {
      MarkedCopies(a[1..], s, m1, m2);
      assert (a + s)[1..] == a[1..] + s;
    }
  }

  /** A mark in front of the marked text was put in for the first character, or was there before. */
  lemma MarkWasThere(m: string, s: string, m1: string, m2: string)
    requires AreMarks(m1, m2) && IsMark(m) && s != [] && !IsQuote(s[0]) && Prefix(m, Marked(s, m1, m2))
    ensures Prefix(m, s)
  {
    PrefixHead(m, Marked(s, m1, m2));
    MarkedHead(s, m1, m2);
    TailOfMarked(m[1..], s[1..], m1, m2);
    PrefixCons(m, s);
  }

  // ---------- unescaping ----------

  /** The marked text after the first replacement back. */
  function HalfBack(s: string, m1: string, m2: string): string {
    if s == [] then []
    else if |m1| > 0 && Prefix(m1, s) then "\"" + HalfBack(s[|m1|..], m1, m2)
    else (if s[0] == '\'' then m2 else [s[0]]) + HalfBack(s[1..], m1, m2)
  }

  lemma {:induction false} FirstReplacementBack(s: string, m1: string, m2: string)
    requires AreMarks(m1, m2)
    ensures ReplaceAll(Marked(s, m1, m2), m1, "\"") == HalfBack(s, m1, m2)
  {
    if s != [] {
      if Prefix(m1, s) {
        var tail := s[|m1|..];
        assert s == m1 + tail;
        forall i | 0 <= i < |m1|
          ensures !IsQuote(m1[i])
        {
          MarkChar(m1, i);
        }
        MarkedCopies(m1, tail, m1, m2);
        ReplaceFront(Marked(tail, m1, m2), m1, "\"");
        FirstReplacementBack(tail, m1, m2);
      } else {
        FirstReplacementBack(s[1..], m1, m2);
        FirstCharBack(s, m1, m2);
      }
    }
  }

  lemma FirstCharBack(s: string, m1: string, m2: string)
    requires AreMarks(m1, m2) && s != [] && !Prefix(m1, s)
    ensures ReplaceAll(Marked(s, m1, m2), m1, "\"")
         == (if s[0] == '\'' then m2 else [s[0]]) + ReplaceAll(Marked(s[1..], m1, m2), m1, "\"")
  {
    var rest := Marked(s[1..], m1, m2);
    if s[0] == '"' {
      ReplaceFront(rest, m1, "\"");
    } else if s[0] == '\'' {
      NoMarkInMark(m1, m2, rest);
      ReplaceCopies(m2, rest, m1, "\"");
    } else {
      if Prefix(m1, Marked(s, m1, m2)) {
        MarkWasThere(m1, s, m1, m2);
      }
      SkipChar(s[0], rest, m1, "\"");
    }
  }

  /** A character that begins no occurrence is copied. */
  lemma SkipChar(c: char, rest: string, p: string, r: string)
    requires p != [] && !Prefix(p, [c] + rest)
    ensures ReplaceAll([c] + rest, p, r) == [c] + ReplaceAll(rest, p, r)
  {
    assert ([c] + rest)[1..] == rest;
  }

  /** Both marks in the text at once as quotation marks. */
  function Back(s: string, m1: string, m2: string): (r: string)
    ensures |r| <= |s|
  {
    if s == [] then []
    else if |m1| > 0 && Prefix(m1, s) then "\"" + Back(s[|m1|..], m1, m2)
    else if |m2| > 0 && Prefix(m2, s) then "'" + Back(s[|m2|..], m1, m2)
    else [s[0]] + Back(s[1..], m1, m2)
  }

  /**
    What both half-way texts have in common: a mark in front of them that was not
    in front of the original came in for a quotation mark.
   */
  lemma {:induction false} TailOfHalf(q: string, s: string, m1: string, m2: string)
    requires AreMarks(m1, m2) && NoBracket(q) && Prefix(q, HalfBack(s, m1, m2))
    ensures Prefix(q, s)
  {
    if q != [] {
      var h := HalfBack(s, m1, m2);
      PrefixHead(q, h);
      assert h[0] == q[0] && q[0] != '[' && !IsQuote(q[0]);
      HalfHead(s, m1, m2);
      TailOfHalf(q[1..], s[1..], m1, m2);
      PrefixCons(q, s);
    }
  }

  lemma HalfHead(s: string, m1: string, m2: string)
    requires AreMarks(m1, m2) && HalfBack(s, m1, m2) != []
    ensures s != []
    ensures !IsQuote(HalfBack(s, m1, m2)[0]) && HalfBack(s, m1, m2)[0] != '[' ==>
              HalfBack(s, m1, m2)[0] == s[0] && HalfBack(s, m1, m2)[1..] == HalfBack(s[1..], m1, m2)
    ensures !Prefix(m1, s) && !IsQuote(s[0]) ==>
              HalfBack(s, m1, m2)[0] == s[0] && HalfBack(s, m1, m2)[1..] == HalfBack(s[1..], m1, m2)
  {
  }

  lemma {:induction false} HalfCopies(a: string, s: string, m1: string, m2: string)
    requires m1 != []
    requires forall i :: 0 <= i < |a| ==> !IsQuote(a[i])
    requires forall k: nat :: k < |a| ==> !Prefix(m1, a[k..] + s)
    ensures HalfBack(a + s, m1, m2) == a + HalfBack(s, m1, m2)
  {
    if a == [] {
      assert a + s == s;
    } else {
      assert a[0..] + s == a + s;
      assert (a + s)[1..] == a[1..] + s;
      forall k: nat | k < |a| - 1
        ensures !Prefix(m1, a[1..][k..] + s)
      {
        assert a[1..][k..] == a[k + 1..];
      }
      HalfCopies(a[1..], s, m1, m2);
    }
  }

  lemma HalfOfMark(s: string, m1: string, m2: string)
    requires AreMarks(m1, m2)
    ensures HalfBack(m2 + s, m1, m2) == m2 + HalfBack(s, m1, m2)
  {
    NoMarkInMark(m1, m2, s);
    forall i | 0 <= i < |m2|
      ensures !IsQuote(m2[i])
    {
      MarkChar(m2, i);
    }
    HalfCopies(m2, s, m1, m2);
  }

  /** The second replacement back completes the first. */
  lemma {:induction false} SecondReplacementBack(s: string, m1: string, m2: string)
    requires AreMarks(m1, m2)
    ensures ReplaceAll(HalfBack(s, m1, m2), m2, "'") == Back(s, m1, m2)
  {
    if s != [] {
      if Prefix(m1, s) {
        var tail := HalfBack(s[|m1|..], m1, m2);
        SecondReplacementBack(s[|m1|..], m1, m2);
        NoMarkHere(m2, "\"" + tail);
        SkipChar('"', tail, m2, "'");
      } else if Prefix(m2, s) {
        var tail := s[|m2|..];
        assert s == m2 + tail;
        HalfOfMark(tail, m1, m2);
        ReplaceFront(HalfBack(tail, m1, m2), m2, "'");
        SecondReplacementBack(tail, m1, m2);
      } else {
        SecondReplacementBack(s[1..], m1, m2);
        SecondCharBack(s, m1, m2);
      }
    }
  }

  lemma SecondCharBack(s: string, m1: string, m2: string)
    requires AreMarks(m1, m2) && s != [] && !Prefix(m1, s) && !Prefix(m2, s)
    ensures ReplaceAll(HalfBack(s, m1, m2), m2, "'") == [s[0]] + ReplaceAll(HalfBack(s[1..], m1, m2), m2, "'")
  {
    var rest := HalfBack(s[1..], m1, m2);
    if s[0] == '\'' {
      ReplaceFront(rest, m2, "'");
    } else {
      if s[0] == '"' {
        NoMarkHere(m2, [s[0]] + rest);
      } else if Prefix(m2, HalfBack(s, m1, m2)) {
        PrefixHead(m2, HalfBack(s, m1, m2));
        HalfHead(s, m1, m2);
        TailOfHalf(m2[1..], s[1..], m1, m2);
        PrefixCons(m2, s);
      }
      SkipChar(s[0], rest, m2, "'");
    }
  }

  // ---------- the round trip ----------

  /** What comes back has every mark of the text, and no other, as a quotation mark. */
  lemma RoundTripText(s: string)
    ensures Unescaped(Escaped(s)) == Back(s, DOUBLE_MARK, SINGLE_MARK)
  {
    TheMarks();
    EscapedIsMarked(s, DOUBLE_MARK, SINGLE_MARK);
    FirstReplacementBack(s, DOUBLE_MARK, SINGLE_MARK);
    SecondReplacementBack(s, DOUBLE_MARK, SINGLE_MARK);
  }

  /** A text without marks is not changed; with one, it gets shorter. */
  lemma {:induction false} BackChanges(s: string, m1: string, m2: string)
    requires AreMarks(m1, m2)
    ensures Back(s, m1, m2) == s <==> !Occurs(m1, s) && !Occurs(m2, s)
    ensures Back(s, m1, m2) != s ==> |Back(s, m1, m2)| < |s|
  {
    if s == [] {
      assert !Prefix(m1, s[0..]) && !Prefix(m2, s[0..]);
    } else if Prefix(m1, s) || Prefix(m2, s) {
      BackShortens(s, m1, m2);
    } else {
      BackChanges(s[1..], m1, m2);
      OccursBehind(m1, s);
      OccursBehind(m2, s);
      assert s == [s[0]] + s[1..];
    }
  }

  lemma BackShortens(s: string, m1: string, m2: string)
    requires AreMarks(m1, m2) && (Prefix(m1, s) || Prefix(m2, s))
    ensures |Back(s, m1, m2)| < |s| && (Occurs(m1, s) || Occurs(m2, s))
  {
    assert s[0..] == s;
    assert OccursAt(m1, s, 0) || OccursAt(m2, s, 0);
  }

  /** A stored text comes back unchanged if and only if neither mark occurs in it. */
  lemma RoundTripExactly(s: string)
    ensures Unescaped(Escaped(s)) == s <==> !Occurs(DOUBLE_MARK, s) && !Occurs(SINGLE_MARK, s)
  {
    TheMarks();
    RoundTripText(s);
    BackChanges(s, DOUBLE_MARK, SINGLE_MARK);
  }

  /** A mark that a user writes comes back as a quotation mark. */
  lemma MarkComesBackAsQuote()
    ensures Unescaped(Escaped(SINGLE_MARK)) == "'"
  {
    TheMarks();
    RoundTripText(SINGLE_MARK);
    assert SINGLE_MARK[|SINGLE_MARK|..] == [];
    assert SINGLE_MARK[..|SINGLE_MARK|] == SINGLE_MARK;
    OneMark(DOUBLE_MARK, SINGLE_MARK, SINGLE_MARK);
  }

  /** No quotation mark is left in the stored text. */
  lemma {:induction false} NoQuoteStored(s: string, m1: string, m2: string)
    requires AreMarks(m1, m2)
    ensures forall i :: 0 <= i < |Marked(s, m1, m2)| ==> !IsQuote(Marked(s, m1, m2)[i])
  {
    if s != [] {
      NoQuoteStored(s[1..], m1, m2);
      forall i | 0 <= i < |m1|
        ensures !IsQuote(m1[i]) && !IsQuote(m2[i])
      {
        MarkChar(m1, i);
        MarkChar(m2, i);
      }
    }
  }

  lemma StoredWithoutQuotes(s: string)
    ensures forall i :: 0 <= i < |Escaped(s)| ==> !IsQuote(Escaped(s)[i])
  {
    TheMarks();
    EscapedIsMarked(s, DOUBLE_MARK, SINGLE_MARK);
    NoQuoteStored(s, DOUBLE_MARK, SINGLE_MARK);
  }
}
