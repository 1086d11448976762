/**
  `Main::randEvents`: the bot answers a question by rewriting it. "I" and "you" are
  swapped by three replacements, question words are cut off, and the answer is one
  half of "A or B", or "A" or "not A" of "A-not-A". All cuts are at byte offsets.
 */
module RandEvents {
  import opened Wrappers
  import opened Bytes
  import opened Strings
  import opened Utf8

  const WO: Char := [0xE6, 0x88, 0x91]        // U+6211, I
  const NI: Char := [0xE4, 0xBD, 0xA0]        // U+4F60, you
  const HAI: Char := [0xE8, 0xBF, 0x98]       // U+8FD8
  const SHI: Char := [0xE6, 0x98, 0xAF]       // U+662F
  const BU: Char := [0xE4, 0xB8, 0x8D]        // U+4E0D, not
  const WIDE_QUESTION: Char := [0xEF, 0xBC, 0x9F]
  const QUESTION: Char := [0x3F]
  const PLACEHOLDER: seq<Byte> := [0x7B, 0x40, 0x40, 0x7D]
  const PLACEHOLDER_CHARS: seq<Char> := [[0x7B], [0x40], [0x40], [0x7D]]
  const OR: seq<Byte> := [0xE8, 0xBF, 0x98, 0xE6, 0x98, 0xAF]   // U+8FD8 U+662F

  lemma Constants()
    ensures IsChar(WO) && IsChar(NI) && IsChar(BU) && IsChar(WIDE_QUESTION) && IsChar(QUESTION)
    ensures AllChars([HAI, SHI]) && Flatten([HAI, SHI]) == OR && |OR| == 6
    ensures AllChars(PLACEHOLDER_CHARS) && Flatten(PLACEHOLDER_CHARS) == PLACEHOLDER
  {
    FlattenOne(SHI);
    assert [HAI, SHI][1..] == [SHI];
    FlattenOne([0x7B]); FlattenOne([0x40]); FlattenOne([0x7D]);
    FlattenConcat([[0x7B]], [[0x40]]);
    FlattenConcat([[0x40]], [[0x7D]]);
    FlattenConcat([[0x7B], [0x40]], [[0x40], [0x7D]]);
    assert [[0x7B], [0x40]] + [[0x40], [0x7D]] == PLACEHOLDER_CHARS;
    assert [[0x7B]] + [[0x40]] == [[0x7B], [0x40]] && [[0x40]] + [[0x7D]] == [[0x40], [0x7D]];
  }

  // ---------- swapping the pronouns ----------

  /** The three successive replacements. */
  function SwapPronouns(s: seq<Byte>): seq<Byte> {
    ReplaceAll(ReplaceAll(ReplaceAll(s, WO, PLACEHOLDER), NI, WO), PLACEHOLDER, NI)
  }

  /** What they are meant to do to each character. */
  function SwapChar(c: Char): Char {
    if c == WO then NI else if c == NI then WO else c
  }

  /** The text after the first two replacements, in characters. */
  function Marked(cs: seq<Char>): seq<Char> {
    if cs == [] then []
    else (if cs[0] == WO then PLACEHOLDER_CHARS else if cs[0] == NI then [WO] else [cs[0]]) + Marked(cs[1..])
  }

  lemma {:induction false} TwoReplacements(cs: seq<Char>)
    ensures ReplaceAll(ReplaceAll(cs, [WO], PLACEHOLDER_CHARS), [NI], [WO]) == Marked(cs)
  {
    if cs != [] {
      var rest := ReplaceAll(cs[1..], [WO], PLACEHOLDER_CHARS);
      TwoReplacements(cs[1..]);
      if cs[0] == WO {
        assert cs[..1] == [WO];
        forall k: nat | k < 4
          ensures !Prefix([NI], PLACEHOLDER_CHARS[k..] + rest)
        {
          assert (PLACEHOLDER_CHARS[k..] + rest)[..1][0] == PLACEHOLDER_CHARS[k];
        }
        ReplaceCopies(PLACEHOLDER_CHARS, rest, [NI], [WO]);
      } else {
        assert !Prefix([WO], cs) by { assert cs[..1][0] == cs[0]; }
        assert ([cs[0]] + rest)[..1] == [cs[0]];
        assert ([cs[0]] + rest)[1..] == rest;
      }
    }
  }

  /** The third replacement undoes the marks, and any placeholder that was in the text. */
  function Unmarked(cs: seq<Char>): seq<Char> {
    ReplaceAll(Marked(cs), PLACEHOLDER_CHARS, [NI])
  }

  /** The first mark is the first character, unless that was one of the pronouns. */
  lemma MarkedHead(cs: seq<Char>)
    ensures cs == [] <==> Marked(cs) == []
    ensures cs != [] ==> Marked(cs)[0] == (if cs[0] == WO then [0x7B] else if cs[0] == NI then WO else cs[0])
    ensures cs != [] && cs[0] != WO ==> Marked(cs)[1..] == Marked(cs[1..])
  {
  }

  /** The marks begin with `{` or a pronoun, so other characters at their front were there before. */
  lemma {:induction false} TailOfMarks(q: seq<Char>, cs: seq<Char>)
    requires forall i :: 0 <= i < |q| ==> q[i] != [0x7B] && q[i] != WO
    requires Prefix(q, Marked(cs))
    ensures Prefix(q, cs)
  {
    if q != [] {
      var m := Marked(cs);
      MarkedHead(cs);
      assert m[..|q|][0] == q[0];
      assert m[1..][..|q| - 1] == q[1..] by { assert m[..|q|][1..] == m[1..][..|q| - 1]; }
      TailOfMarks(q[1..], cs[1..]);
      assert cs[..|q|] == [cs[0]] + cs[1..][..|q| - 1];
    }
  }

  /** A placeholder at the front of the marked text was put in for the first character, or was there before. */
  lemma MarksDoNotMerge(cs: seq<Char>)
    requires cs != [] && cs[0] != WO && Prefix(PLACEHOLDER_CHARS, Marked(cs))
    ensures Prefix(PLACEHOLDER_CHARS, cs)
  {
    var m, q := Marked(cs), PLACEHOLDER_CHARS[1..];
    MarkedHead(cs);
    assert m[..4][0] == PLACEHOLDER_CHARS[0];
    assert m[1..][..3] == q by { assert m[..4][1..] == m[1..][..3]; }
    TailOfMarks(q, cs[1..]);
    assert cs[..4] == [cs[0]] + cs[1..][..3];
  }

  lemma {:induction false} MarkedPlaceholder(cs: seq<Char>)
    requires Prefix(PLACEHOLDER_CHARS, cs)
    ensures Marked(cs) == PLACEHOLDER_CHARS + Marked(cs[4..])
  {
    assert cs[0] == cs[..4][0] && cs[1] == cs[..4][1] && cs[2] == cs[..4][2] && cs[3] == cs[..4][3];
    assert Marked(cs) == [cs[0]] + Marked(cs[1..]);
    assert Marked(cs[1..]) == [cs[1]] + Marked(cs[2..]) by { assert cs[1..][1..] == cs[2..]; }
    assert Marked(cs[2..]) == [cs[2]] + Marked(cs[3..]) by { assert cs[2..][1..] == cs[3..]; }
    assert Marked(cs[3..]) == [cs[3]] + Marked(cs[4..]) by { assert cs[3..][1..] == cs[4..]; }
  }

  /** One character at a time, and four at a placeholder that was in the text. */
  lemma UnmarkedStep(cs: seq<Char>)
    requires cs != []
    ensures Unmarked(cs) == if Prefix(PLACEHOLDER_CHARS, cs) then [NI] + Unmarked(cs[4..])
                            else [SwapChar(cs[0])] + Unmarked(cs[1..])
  {
    if cs[0] != WO && Prefix(PLACEHOLDER_CHARS, Marked(cs)) {
      MarksDoNotMerge(cs);
    }
    if Prefix(PLACEHOLDER_CHARS, cs) {
      MarkedPlaceholder(cs);
      ReplaceFront(Marked(cs[4..]), PLACEHOLDER_CHARS, [NI]);
    } else if cs[0] == WO {
      ReplaceFront(Marked(cs[1..]), PLACEHOLDER_CHARS, [NI]);
    } else {
      assert Marked(cs) == [SwapChar(cs[0])] + Marked(cs[1..]);
      assert Marked(cs)[1..] == Marked(cs[1..]);
    }
  }

  /** Without a placeholder in the text, every character is swapped; with one, the text gets shorter. */
  lemma {:induction false} UnmarkedIsSwap(cs: seq<Char>)
    ensures |Unmarked(cs)| <= |cs|
    ensures !Occurs(PLACEHOLDER_CHARS, cs) ==> Unmarked(cs) == Map(SwapChar, cs)
    ensures Occurs(PLACEHOLDER_CHARS, cs) ==> |Unmarked(cs)| < |cs|
    decreases |cs|
  {
    if cs != [] {
      UnmarkedStep(cs);
      if Prefix(PLACEHOLDER_CHARS, cs) {
        UnmarkedIsSwap(cs[4..]);
        assert cs[0..] == cs;
        assert OccursAt(PLACEHOLDER_CHARS, cs, 0);
      } else {
        UnmarkedIsSwap(cs[1..]);
        if Occurs(PLACEHOLDER_CHARS, cs[1..]) {
          OccursInTail(PLACEHOLDER_CHARS, cs, 1);
        }
        if Occurs(PLACEHOLDER_CHARS, cs) {
          var i: nat :| i <= |cs| && OccursAt(PLACEHOLDER_CHARS, cs, i);
          assert i > 0 by { assert cs[0..] == cs; }
          assert cs[1..][i - 1..] == cs[i..];
          assert OccursAt(PLACEHOLDER_CHARS, cs[1..], i - 1);
        }
      }
    }
  }

  /** The replacements on bytes are the replacements on characters. */
  lemma SwapInChars(cs: seq<Char>)
    requires AllChars(cs)
    ensures SwapPronouns(Flatten(cs)) == Flatten(Unmarked(cs))
    ensures AllChars(Unmarked(cs))
  {
    Constants();
    FlattenOne(WO);
    FlattenOne(NI);
    var one := ReplaceAll(cs, [WO], PLACEHOLDER_CHARS);
    var two := ReplaceAll(one, [NI], [WO]);
    ReplaceKeepsChars(cs, [WO], PLACEHOLDER_CHARS);
    ReplaceKeepsChars(one, [NI], [WO]);
    ReplaceKeepsChars(two, PLACEHOLDER_CHARS, [NI]);
    ReplaceInText(cs, [WO], PLACEHOLDER_CHARS);
    ReplaceInText(one, [NI], [WO]);
    ReplaceInText(two, PLACEHOLDER_CHARS, [NI]);
    TwoReplacements(cs);
  }

  lemma {:induction false} ReplaceKeepsChars(cs: seq<Char>, ps: seq<Char>, rs: seq<Char>)
    requires AllChars(cs) && AllChars(rs) && ps != []
    ensures AllChars(ReplaceAll(cs, ps, rs))
    decreases |cs|
  {
    if cs != [] {
      if Prefix(ps, cs) {
        ReplaceKeepsChars(cs[|ps|..], ps, rs);
      } else {
        ReplaceKeepsChars(cs[1..], ps, rs);
      }
    }
  }

  /**
    For every UTF-8 text, the three replacements swap the two pronouns everywhere
    at once if and only if the text does not contain the placeholder.
   */
  lemma SwapIsSimultaneous(cs: seq<Char>)
    requires AllChars(cs)
    ensures SwapPronouns(Flatten(cs)) == Flatten(Map(SwapChar, cs)) <==> !Occurs(PLACEHOLDER, Flatten(cs))
  {
    SwapInChars(cs);
    UnmarkedIsSwap(cs);
    PlaceholderInChars(cs);
    SwapCharTwice(cs);
    var swapped := Map(SwapChar, cs);
    if Flatten(Unmarked(cs)) == Flatten(swapped) {
      FlattenInjective(Unmarked(cs), swapped);
    }
  }

  lemma PlaceholderInChars(cs: seq<Char>)
    requires AllChars(cs)
    ensures Occurs(PLACEHOLDER, Flatten(cs)) <==> Occurs(PLACEHOLDER_CHARS, cs)
  {
    Constants();
    OccursInText(PLACEHOLDER_CHARS, cs);
  }

  lemma {:induction false} SwapKeepsPlaceholders(cs: seq<Char>)
    ensures Occurs(PLACEHOLDER_CHARS, Map(SwapChar, cs)) ==> Occurs(PLACEHOLDER_CHARS, cs)
  {
    var m := Map(SwapChar, cs);
    if Occurs(PLACEHOLDER_CHARS, m) {
      var i: nat :| i <= |m| && OccursAt(PLACEHOLDER_CHARS, m, i);
      forall k | 0 <= k < 4
        ensures cs[i..][k] == PLACEHOLDER_CHARS[k]
      {
        assert m[i..][..4][k] == SwapChar(cs[i + k]);
      }
      assert cs[i..][..4] == PLACEHOLDER_CHARS;
      assert OccursAt(PLACEHOLDER_CHARS, cs, i);
    }
  }

  lemma SwapCharTwice(cs: seq<Char>)
    requires AllChars(cs)
    ensures AllChars(Map(SwapChar, cs)) && Map(SwapChar, Map(SwapChar, cs)) == cs
  {
    forall i | 0 <= i < |cs|
      ensures IsChar(SwapChar(cs[i])) && SwapChar(SwapChar(cs[i])) == cs[i]
    {
      SwapOneTwice(cs[i]);
    }
  }

  lemma SwapOneTwice(c: Char)
    requires IsChar(c)
    ensures IsChar(SwapChar(c)) && SwapChar(SwapChar(c)) == c
  {
    Constants();
  }

  /** On UTF-8 text, swapping twice gives the text back if and only if it does not contain the placeholder. */
  lemma SwapTwice(s: seq<Byte>)
    requires Valid(s)
    ensures SwapPronouns(SwapPronouns(s)) == s <==> !Occurs(PLACEHOLDER, s)
  {
    var cs :| AllChars(cs) && Flatten(cs) == s;
    SwapCharTwice(cs);
    SwapIsSimultaneous(cs);
    if !Occurs(PLACEHOLDER, s) {
      StillNoPlaceholder(cs);
      SwapIsSimultaneous(Map(SwapChar, cs));
    } else {
      PlaceholderIsLost(cs);
    }
  }

  /** A placeholder shortens the text in the first swap, and the second does not lengthen it. */
  lemma PlaceholderIsLost(cs: seq<Char>)
    requires AllChars(cs) && Occurs(PLACEHOLDER, Flatten(cs))
    ensures SwapPronouns(SwapPronouns(Flatten(cs))) != Flatten(cs)
  {
    var u := Unmarked(cs);
    PlaceholderInChars(cs);
    SwapInChars(cs);
    SwapInChars(u);
    UnmarkedIsSwap(cs);
    UnmarkedIsSwap(u);
    if Flatten(Unmarked(u)) == Flatten(cs) {
      FlattenInjective(Unmarked(u), cs);
    }
  }

  lemma StillNoPlaceholder(cs: seq<Char>)
    requires AllChars(cs) && AllChars(Map(SwapChar, cs)) && !Occurs(PLACEHOLDER, Flatten(cs))
    ensures !Occurs(PLACEHOLDER, Flatten(Map(SwapChar, cs)))
  {
    PlaceholderInChars(cs);
    SwapKeepsPlaceholders(cs);
    PlaceholderInChars(Map(SwapChar, cs));
  }

  // ---------- cutting off question words ----------

  predicate EndsWith(s: seq<Byte>, t: seq<Byte>) {
    |t| <= |s| && s[|s| - |t|..] == t
  }

  /** One question mark less; `None` is the exception of `substr` on a text shorter than three bytes. */
  function WithoutQuestionMark(s: seq<Byte>): (r: Option<seq<Byte>>)
    ensures r.None? <==> |s| < 3
    ensures r.Some? ==> s == r.value + WIDE_QUESTION || s == r.value + QUESTION
                        || (s == r.value && !EndsWith(s, WIDE_QUESTION) && !EndsWith(s, QUESTION))
  {
    match Substr(s, |s| - 3, 3)
    case None => None
    case Some(three) =>
      var one := s[|s| - 1..];
      if three == WIDE_QUESTION || one == QUESTION then
        if three == WIDE_QUESTION then Some(s[..|s| - 3]) else Some(s[..|s| - 1])
      else Some(s)
  }

  /**
    A final particle less. The two particles are written as the compiler encodes
    its source: three bytes each in UTF-8; in another encoding they may have
    another length, and then they are never found.
   */
  function WithoutParticle(s: seq<Byte>, ma: seq<Byte>, ne: seq<Byte>): (r: Option<seq<Byte>>)
    ensures r.None? <==> |s| < 3
    ensures r.Some? ==> (|ma| == 3 && s == r.value + ma) || (|ne| == 3 && s == r.value + ne)
                        || (s == r.value && !(|ma| == 3 && EndsWith(s, ma)) && !(|ne| == 3 && EndsWith(s, ne)))
  {
    match Substr(s, |s| - 3, 3)
    case None => None
    case Some(three) => if three == ma || three == ne then Some(s[..|s| - 3]) else Some(s)
  }

  /** The text after both cuts. */
  function Stem(s: seq<Byte>, ma: seq<Byte>, ne: seq<Byte>): Option<seq<Byte>> {
    match WithoutQuestionMark(s)
    case None => None
    case Some(q) => WithoutParticle(q, ma, ne)
  }

  /** Less than three bytes are left for one of the two cuts. */
  predicate TooShort(s: seq<Byte>) {
    |s| < 3 || (|s| == 3 && EndsWith(s, QUESTION)) || (|s| < 6 && EndsWith(s, WIDE_QUESTION))
  }

  /** The cuts throw exactly on such a text. */
  lemma StemThrows(s: seq<Byte>, ma: seq<Byte>, ne: seq<Byte>)
    ensures Stem(s, ma, ne).None? <==> TooShort(s)
  {
  }

  /** A particle that the cut can find is one whole character. */
  predicate Particle(p: seq<Byte>) {
    |p| == 3 ==> IsChar(p)
  }

  lemma CutLastChar(s: seq<Byte>, r: seq<Byte>, c: Char)
    requires Valid(s) && s == r + c && IsChar(c)
    ensures Valid(r)
  {
    CharShape(c);
    assert s[|r|] == c[0];
    CutBeforeLead(s, |r|);
    assert s[..|r|] == r;
  }

  /** Both cuts leave whole characters. */
  lemma CutsKeepText(s: seq<Byte>, ma: seq<Byte>, ne: seq<Byte>)
    requires Valid(s) && Particle(ma) && Particle(ne)
    ensures WithoutQuestionMark(s).Some? ==> Valid(WithoutQuestionMark(s).value)
    ensures WithoutParticle(s, ma, ne).Some? ==> Valid(WithoutParticle(s, ma, ne).value)
  {
    Constants();
    var q := WithoutQuestionMark(s);
    if q.Some? && s == q.value + WIDE_QUESTION {
      CutLastChar(s, q.value, WIDE_QUESTION);
    } else if q.Some? && s == q.value + QUESTION {
      CutLastChar(s, q.value, QUESTION);
    }
    var p := WithoutParticle(s, ma, ne);
    if p.Some? && |ma| == 3 && s == p.value + ma {
      CutLastChar(s, p.value, ma);
    } else if p.Some? && |ne| == 3 && s == p.value + ne {
      CutLastChar(s, p.value, ne);
    }
  }

  // ---------- the answer ----------

  /**
    What the user sees. `Threw` is an exception that is caught and logged;
    `Undefined` is a read in front of the string.
   */
  datatype Outcome = Reply(text: seq<Byte>) | Silent | Threw | Undefined

  /** The answer to "A or B", where the question word is at `i`. */
  function OneHalf(s: seq<Byte>, i: nat, pick: int): Outcome
    requires i + 6 <= |s|
  {
    var a, b := s[..i], s[i + 6..];
    if a == [] || b == [] then Silent else Reply(if pick == 1 then a else b)
  }

  /** The answer to a text whose first "not" is at `i`. */
  function Affirm(s: seq<Byte>, i: nat, pick: int): Outcome
    requires i + 3 <= |s|
  {
    var rest := s[i + 3..];
    if i == 0 then Undefined
    else if s[i - 1] >= 0x80 then
      if i < 3 then Threw
      else if Prefix(s[i - 3..i], rest) then
        Reply(if pick == 1 then s[..i - 3] + rest else s[..i - 3] + BU + rest)
      else Silent
    else if s[..i] == rest then Reply(if pick == 1 then rest else BU + rest)
    else Silent
  }

  function Answer(s: seq<Byte>, pick: int): Outcome {
    match (Find(s, OR), Find(s, BU))
    case (Some(i), _) => OneHalf(s, i, pick)
    case (None, Some(i)) => Affirm(s, i, pick)
    case (None, None) => Silent
  }

  /** What `randEvents` does with the unescaped and trimmed message. */
  function Respond(message: seq<Byte>, pick: int, ma: seq<Byte>, ne: seq<Byte>): Outcome {
    match Stem(SwapPronouns(message), ma, ne)
    case None => Threw
    case Some(t) => Answer(t, pick)
  }

  /** The body, from the replacements on; `pick` is the random number, 1 or 2. */
  method RandEvents(message: seq<Byte>, pick: int, ma: seq<Byte>, ne: seq<Byte>) returns (o: Outcome)
    requires pick == 1 || pick == 2
    ensures o == Respond(message, pick, ma, ne)
  {
    var cmd := SwapInPlace(message);
    var cut := WithoutQuestionMark(cmd);
    if cut.None? {
      return Threw;
    }
    cmd := cut.value;
    cut := WithoutParticle(cmd, ma, ne);
    if cut.None? {
      return Threw;
    }
    o := AnswerTo(cut.value, pick);
  }

  /** The three calls of `string_replace`. */
  method SwapInPlace(message: seq<Byte>) returns (cmd: seq<Byte>)
    ensures cmd == SwapPronouns(message)
  {
    cmd := StringReplace(message, WO, PLACEHOLDER);
    cmd := StringReplace(cmd, NI, WO);
    cmd := StringReplace(cmd, PLACEHOLDER, NI);
  }

  /** The branches for the answer. */
  method AnswerTo(cmd: seq<Byte>, pick: int) returns (o: Outcome)
    requires pick == 1 || pick == 2
    ensures o == Answer(cmd, pick)
  {
    var at := Find(cmd, OR);
    if at.Some? {
      var str1 := cmd[..at.value];
      var str2 := cmd[at.value + 6..];
      if str1 == [] || str2 == [] {
        return Silent;
      }
      if pick == 1 {
        return Reply(str1);
      } else {
        return Reply(str2);
      }
    }
    at := Find(cmd, BU);
    if at.Some? {
      o := AffirmTo(cmd, at.value, pick);
      return;
    }
    return Silent;
  }

  /** The branches for a text whose first "not" is at `f`. */
  method AffirmTo(cmd: seq<Byte>, f: nat, pick: int) returns (o: Outcome)
    requires (pick == 1 || pick == 2) && f + 3 <= |cmd|
    ensures o == Affirm(cmd, f, pick)
  {
    if f == 0 {
      return Undefined;
    }
    if cmd[f - 1] >= 0x80 {
      var before := Substr(cmd, f - 3, 3);
      if before.None? {
        return Threw;
      }
      var after := Substr(cmd, f + 3, 3);
      SameThree(cmd, f);
      if before == after {
        var str1, str2 := cmd[..f - 3], cmd[f + 3..];
        if pick == 1 {
          return Reply(str1 + str2);
        } else {
          return Reply(str1 + BU + str2);
        }
      }
    } else {
      if cmd[..f] == cmd[f + 3..] {
        var str2 := cmd[f + 3..];
        if pick == 1 {
          return Reply(str2);
        } else {
          return Reply(BU + str2);
        }
      }
    }
    return Silent;
  }

  /** Comparing the three bytes on both sides is looking for a repeated word. */
  lemma SameThree(s: seq<Byte>, f: nat)
    requires 3 <= f && f + 3 <= |s|
    ensures Substr(s, f - 3, 3) == Substr(s, f + 3, 3) <==> Prefix(s[f - 3..f], s[f + 3..])
  {
    var rest := s[f + 3..];
    assert Substr(s, f - 3, 3) == Some(s[f - 3..f]);
    if |rest| >= 3 {
      assert Substr(s, f + 3, 3).value == rest[..3];
    } else {
      assert |Substr(s, f + 3, 3).value| < 3;
    }
  }

  /** The parts of an "A-not-A" question and of the answer to it. */
  predicate IsAffirmation(s: seq<Byte>, front: seq<Byte>, word: seq<Byte>, rest: seq<Byte>,
                          answer: seq<Byte>, pick: int)
  {
    && word != []
    && s == front + word + BU + word + rest
    && answer == (if pick == 1 then front + word + rest else front + BU + word + rest)
  }

  /** An answer is given only when the text before "not" ends with a word that follows it. */
  lemma RepeatedWord(s: seq<Byte>, i: nat, pick: int) returns (front: seq<Byte>, word: seq<Byte>)
    requires i + 3 <= |s| && Affirm(s, i, pick).Reply?
    ensures word != [] && s[..i] == front + word && Prefix(word, s[i + 3..])
    ensures front == if s[i - 1] >= 0x80 then s[..i - 3] else []
  {
    if s[i - 1] >= 0x80 {
      front, word := s[..i - 3], s[i - 3..i];
    } else {
      front, word := [], s[..i];
    }
  }

  /** A word at the end of a text that is also at the beginning of a text is cut off on a boundary. */
  lemma WordBefore(front: seq<Byte>, word: seq<Byte>, tail: seq<Byte>)
    requires Valid(front + word) && Valid(tail) && word != [] && Prefix(word, tail)
    ensures Valid(front) && Valid(word)
  {
    var s := front + word;
    ValidFirst(tail);
    assert tail[0] == tail[..|word|][0] == word[0] == s[|front|];
    CutBeforeLead(s, |front|);
    assert s[..|front|] == front && s[|front|..] == word;
  }

  /** On both sides of "not" there is whole text. */
  lemma AroundNot(s: seq<Byte>, i: nat)
    requires Valid(s) && OccursAt(BU, s, i) && i + 3 <= |s|
    ensures Valid(s[..i]) && Valid(s[i + 3..])
  {
    Constants();
    assert s[i] == s[i..][..3][0];
    CutBeforeLead(s, i);
    AfterChar(s[i..], BU);
    assert s[i..][3..] == s[i + 3..];
  }

  /**
    In UTF-8 text every cut of the "A-not-A" branches is between characters, even
    when the character before "not" does not have three bytes. The answer is the
    text without "A not", or without the first A.
   */
  lemma AffirmationOnBoundaries(s: seq<Byte>, i: nat, pick: int)
    returns (front: seq<Byte>, word: seq<Byte>, rest: seq<Byte>)
    requires Valid(s) && OccursAt(BU, s, i) && i + 3 <= |s| && Affirm(s, i, pick).Reply?
    ensures Valid(front) && Valid(word) && Valid(rest) && Valid(Affirm(s, i, pick).text)
    ensures IsAffirmation(s, front, word, rest, Affirm(s, i, pick).text, pick)
  {
    front, word := RepeatedWord(s, i, pick);
    var tail := s[i + 3..];
    AroundNot(s, i);
    WordBefore(front, word, tail);
    rest := tail[|word|..];
    assert tail == word + rest;
    RestIsText(tail, word, rest);
    Constants();
    ValidChar(BU);
    AffirmationParts(s, i, front, word, rest);
    AffirmationText(s, i, pick, front, word, rest);
    ValidConcat(front, word);
    ValidConcat(front + word, rest);
    ValidConcat(front, BU);
    ValidConcat(front + BU, word);
    ValidConcat(front + BU + word, rest);
  }

  /** Text from which text was cut off in front is text. */
  lemma RestIsText(s: seq<Byte>, a: seq<Byte>, b: seq<Byte>)
    requires s == a + b && Valid(s) && Valid(a)
    ensures Valid(b)
  {
    var cs :| AllChars(cs) && Flatten(cs) == s;
    var xs :| AllChars(xs) && Flatten(xs) == a;
    PrefixOfText(xs, cs);
    var ys := cs[|xs|..];
    assert cs == xs + ys;
    FlattenConcat(xs, ys);
    assert Flatten(ys) == b;
    assert AllChars(ys);
  }

  /** Three bytes that make one character, or an ASCII character and one of two bytes. */
  predicate ThreeBytes(w: seq<Byte>) {
    |w| == 3 && w[2] >= 0x80 && (IsChar(w) || (w[0] < 0x80 && IsChar(w[1..])))
  }

  lemma TextOfThree(w: seq<Byte>)
    requires Valid(w) && |w| == 3
    ensures ThreeBytes(w) || w[2] < 0x80
  {
    var cs :| AllChars(cs) && Flatten(cs) == w;
    var c, rest := cs[0], cs[1..];
    CharShape(c);
    assert w == c + Flatten(rest);
    if |c| == 2 {
      TextOfOne(w[2..], rest);
    } else if |c| == 1 {
      var d, last := rest[0], rest[1..];
      CharShape(d);
      assert w[1..] == d + Flatten(last);
      if |d| == 1 {
        TextOfOne(w[2..], last);
      }
    }
  }

  /** Text of one byte is ASCII. */
  lemma TextOfOne(w: seq<Byte>, cs: seq<Char>)
    requires |w| == 1 && AllChars(cs) && Flatten(cs) == w
    ensures w[0] < 0x80
  {
    FirstByte(cs);
    CharShape(cs[0]);
    assert w == cs[0] + Flatten(cs[1..]);
  }

  /** `w` is on both sides of the "not" at `i`. */
  predicate Around(w: seq<Byte>, s: seq<Byte>, i: nat)
    requires i + 3 <= |s|
  {
    EndsWith(s[..i], w) && Prefix(w, s[i + 3..])
  }

  /**
    An answer is given exactly when the same character is on both sides of "not",
    the character having three bytes, or two with the same ASCII character before;
    or when an ASCII character is before "not" and all of the text is repeated.
   */
  lemma AffirmsExactly(s: seq<Byte>, i: nat, pick: int)
    requires Valid(s) && OccursAt(BU, s, i) && i + 3 <= |s|
    ensures Affirm(s, i, pick).Reply? <==>
              || (exists w :: ThreeBytes(w) && Around(w, s, i))
              || (i > 0 && s[i - 1] < 0x80 && s[..i] == s[i + 3..])
  {
    if Affirm(s, i, pick).Reply? && s[i - 1] >= 0x80 {
      var w := s[i - 3..i];
      AroundNot(s, i);
      assert s[..i] == s[..i - 3] + w;
      WordBefore(s[..i - 3], w, s[i + 3..]);
      TextOfThree(w);
      assert Around(w, s, i);
    }
    if w :| ThreeBytes(w) && Around(w, s, i) {
      assert s[..i][i - 3..] == s[i - 3..i];
      assert w[2] == s[i - 1];
    }
  }

  lemma AffirmationParts(s: seq<Byte>, i: nat, front: seq<Byte>, word: seq<Byte>, rest: seq<Byte>)
    requires OccursAt(BU, s, i) && i + 3 <= |s|
    requires s[..i] == front + word && s[i + 3..] == word + rest
    ensures s == front + word + BU + word + rest
  {
    assert s[i..i + 3] == BU by { assert s[i..][..3] == s[i..i + 3]; }
    assert s == s[..i] + s[i..i + 3] + s[i + 3..];
  }

  lemma AffirmationText(s: seq<Byte>, i: nat, pick: int, front: seq<Byte>, word: seq<Byte>, rest: seq<Byte>)
    requires i + 3 <= |s| && Affirm(s, i, pick).Reply?
    requires s[..i] == front + word && s[i + 3..] == word + rest
    requires front == if s[i - 1] >= 0x80 then s[..i - 3] else []
    ensures Affirm(s, i, pick).text == if pick == 1 then front + word + rest else front + BU + word + rest
  {
    var tail := s[i + 3..];
    assert front + word + rest == front + tail;
    assert front + BU + word + rest == front + BU + tail;
  }

  /** In UTF-8 text the answer to "A or B" is all that is on the left, or the right, of the first question word. */
  lemma HalfOnBoundaries(s: seq<Byte>, i: nat, pick: int)
    requires Valid(s) && OccursAt(OR, s, i) && i + 6 <= |s|
    ensures Valid(s[..i]) && Valid(s[i + 6..]) && s == s[..i] + OR + s[i + 6..]
    ensures OneHalf(s, i, pick).Reply? ==> OneHalf(s, i, pick).text == if pick == 1 then s[..i] else s[i + 6..]
  {
    Constants();
    var cs :| AllChars(cs) && Flatten(cs) == s;
    var before, after := OccurrenceOnBoundary(cs, [HAI, SHI], i);
    PartsAreChars(cs, before, [HAI, SHI], after);
    SplitAround(s, OR, i);
  }

  lemma SplitAround(s: seq<Byte>, p: seq<Byte>, i: nat)
    requires OccursAt(p, s, i)
    ensures i + |p| <= |s| && s == s[..i] + p + s[i + |p|..]
  {
    assert s[i..][..|p|] == s[i..i + |p|];
  }

  lemma PartsAreChars(cs: seq<Char>, a: seq<Char>, b: seq<Char>, c: seq<Char>)
    requires AllChars(cs) && cs == a + b + c
    ensures AllChars(a) && AllChars(c)
  {
    assert forall k :: 0 <= k < |a| ==> a[k] == cs[k];
    assert forall k :: 0 <= k < |c| ==> c[k] == cs[|a + b| + k];
  }

  /** Every answer to a UTF-8 message is UTF-8. */
  lemma ReplyIsText(message: seq<Byte>, pick: int, ma: seq<Byte>, ne: seq<Byte>)
    requires Valid(message) && Particle(ma) && Particle(ne) && Respond(message, pick, ma, ne).Reply?
    ensures Valid(Respond(message, pick, ma, ne).text)
  {
    var cs :| AllChars(cs) && Flatten(cs) == message;
    SwapInChars(cs);
    var s := SwapPronouns(message);
    CutsKeepText(s, ma, ne);
    var t := WithoutQuestionMark(s).value;
    CutsKeepText(t, ma, ne);
    var u := WithoutParticle(t, ma, ne).value;
    if Find(u, OR).Some? {
      HalfOnBoundaries(u, Find(u, OR).value, pick);
    } else {
      var front, word, rest := AffirmationOnBoundaries(u, Find(u, BU).value, pick);
    }
  }

  /** A character of two bytes is all that is in front of the first "not". */
  predicate TwoBytesThenNot(s: seq<Byte>) {
    |s| >= 5 && IsChar(s[..2]) && s[2..5] == BU
  }

  /** The first "not" is at offset 2, and the byte before it is not ASCII. */
  lemma NotAtTwo(s: seq<Byte>)
    requires Valid(s)
    ensures Find(s, BU) == Some(2) && s[1] >= 0x80 <==> TwoBytesThenNot(s)
  {
    if Find(s, BU) == Some(2) && s[1] >= 0x80 {
      assert s[2..5] == s[2..][..3];
      AroundNot(s, 2);
      TextOfTwo(s[..2]);
    }
    if TwoBytesThenNot(s) {
      assert s[2..][..3] == s[2..5];
      assert OccursAt(BU, s, 2);
      NotInTwo(s, 0);
      NotInTwo(s, 1);
    }
  }

  /** "Not" does not begin inside a character of two bytes. */
  lemma NotInTwo(s: seq<Byte>, f: nat)
    requires |s| >= 2 && IsChar(s[..2]) && f < 2
    ensures !OccursAt(BU, s, f)
  {
    assert s[..2][f] == s[f];
    AbsentAt(BU, s, f);
  }

  /** A word does not begin with another byte. */
  lemma AbsentAt(p: seq<Byte>, s: seq<Byte>, i: nat)
    requires p != [] && i < |s| && s[i] != p[0]
    ensures !OccursAt(p, s, i)
  {
    if |p| <= |s[i..]| {
      assert s[i..][..|p|][0] == s[i];
    }
  }

  lemma TextOfTwo(w: seq<Byte>)
    requires Valid(w) && |w| == 2
    ensures IsChar(w) || w[1] < 0x80
  {
    var cs :| AllChars(cs) && Flatten(cs) == w;
    var c, rest := cs[0], cs[1..];
    CharShape(c);
    assert w == c + Flatten(rest);
    if |c| == 1 {
      TextOfOne(w[1..], rest);
    }
  }

  /** How the answer to a text fails. */
  lemma AnswerFails(s: seq<Byte>, pick: int)
    requires Valid(s)
    ensures Answer(s, pick) == Undefined <==> Prefix(BU, s) && !Occurs(OR, s)
    ensures Answer(s, pick) == Threw <==> TwoBytesThenNot(s) && !Occurs(OR, s)
  {
    NotAtTwo(s);
    NotAtStart(s);
    if Find(s, OR).None? && Find(s, BU).Some? {
      AffirmFails(s, Find(s, BU).value, pick);
    }
  }

  lemma AffirmFails(s: seq<Byte>, i: nat, pick: int)
    requires Valid(s) && i + 3 <= |s| && OccursAt(BU, s, i)
    ensures Affirm(s, i, pick) == Undefined <==> i == 0
    ensures Affirm(s, i, pick) == Threw <==> i == 2 && s[1] >= 0x80
  {
    AffirmCases(s, i, pick);
    if i == 1 {
      NotAtOne(s);
    }
  }

  lemma AffirmCases(s: seq<Byte>, i: nat, pick: int)
    requires i + 3 <= |s|
    ensures Affirm(s, i, pick) == Undefined <==> i == 0
    ensures Affirm(s, i, pick) == Threw <==> 0 < i < 3 && s[i - 1] >= 0x80
  {
  }

  lemma NotAtStart(s: seq<Byte>)
    ensures Find(s, BU) == Some(0) <==> Prefix(BU, s)
  {
    assert s[0..] == s;
    if Prefix(BU, s) {
      assert OccursAt(BU, s, 0);
    }
  }

  /** One byte in front of "not" is ASCII. */
  lemma NotAtOne(s: seq<Byte>)
    requires Valid(s) && OccursAt(BU, s, 1)
    ensures s[0] < 0x80
  {
    Constants();
    assert s[1] == s[1..][..3][0];
    CutBeforeLead(s, 1);
    var cs :| AllChars(cs) && Flatten(cs) == s[..1];
    assert cs != [];
    CharShape(cs[0]);
    assert Flatten(cs)[0] == cs[0][0];
  }

  /**
    For every UTF-8 message: the read in front of the string happens exactly when
    the swapped text without its final question mark and particle begins with "not"
    and has no question word. There is an exception exactly when the swapped text is
    too short for the cuts, or a character of two bytes is all that is before "not".
   */
  lemma FailuresExactly(message: seq<Byte>, pick: int, ma: seq<Byte>, ne: seq<Byte>)
    requires Valid(message) && Particle(ma) && Particle(ne)
    ensures var s := SwapPronouns(message);
            var stem := Stem(s, ma, ne);
            && (Respond(message, pick, ma, ne) == Undefined <==>
                  stem.Some? && Prefix(BU, stem.value) && !Occurs(OR, stem.value))
            && (Respond(message, pick, ma, ne) == Threw <==>
                  TooShort(s) || (TwoBytesThenNot(stem.value) && !Occurs(OR, stem.value)))
  {
    var cs :| AllChars(cs) && Flatten(cs) == message;
    SwapInChars(cs);
    var s := SwapPronouns(message);
    StemThrows(s, ma, ne);
    if Stem(s, ma, ne).Some? {
      CutsKeepText(s, ma, ne);
      CutsKeepText(WithoutQuestionMark(s).value, ma, ne);
      AnswerFails(Stem(s, ma, ne).value, pick);
    }
  }

  // ---------- every outcome by the parts of the text ----------

  /** A word that begins with a byte it does not have again, so it does not overlap itself. */
  predicate FirstByteOnce(p: seq<Byte>) {
    p != [] && p[0] !in p[1..]
  }

  /** `p` is between `a` and `b`, and not before. */
  predicate Splits(t: seq<Byte>, p: seq<Byte>, a: seq<Byte>, b: seq<Byte>) {
    t == a + p + b && !Occurs(p, a)
  }

  /** The first place of the word is behind the part that does not have it. */
  lemma FindAtSplit(t: seq<Byte>, p: seq<Byte>, a: seq<Byte>, b: seq<Byte>)
    requires FirstByteOnce(p) && Splits(t, p, a, b)
    ensures Find(t, p) == Some(|a|)
  {
    assert t[|a|..][..|p|] == p;
    assert OccursAt(p, t, |a|);
    var i := Find(t, p).value;
    if i < |a| {
      NotBeforeSplit(t, p, a, b, i);
    }
  }

  lemma NotBeforeSplit(t: seq<Byte>, p: seq<Byte>, a: seq<Byte>, b: seq<Byte>, i: nat)
    requires FirstByteOnce(p) && Splits(t, p, a, b) && i < |a|
    ensures !OccursAt(p, t, i)
  {
    if i + |p| <= |a| {
      assert t[i..][..|p|] == a[i..][..|p|];
      assert !OccursAt(p, a, i);
    } else {
      var k := |a| - i;
      assert t[|a|] == p[0] && p[k] == p[1..][k - 1];
      assert t[i..][..|p|][k] == t[|a|];
    }
  }

  /** A text with the word has such parts. */
  lemma SplitExists(t: seq<Byte>, p: seq<Byte>) returns (a: seq<Byte>, b: seq<Byte>)
    requires p != [] && Occurs(p, t)
    ensures Splits(t, p, a, b)
  {
    var i := Find(t, p).value;
    a, b := t[..i], t[i + |p|..];
    CutAt(t, p, i);
    assert t == a + p + b;
    forall k: nat | k <= |a|
      ensures !OccursAt(p, a, k)
    {
      NotInFront(t, p, i, k);
    }
  }

  lemma NotInFront(t: seq<Byte>, p: seq<Byte>, i: nat, k: nat)
    requires p != [] && Find(t, p) == Some(i) && k <= i
    ensures !OccursAt(p, t[..i], k)
  {
    if k + |p| <= i {
      assert t[..i][k..][..|p|] == t[k..][..|p|];
      assert !OccursAt(p, t, k);
    }
  }

  lemma QuestionWords()
    ensures FirstByteOnce(OR) && FirstByteOnce(BU)
  {
    assert OR[1..] == [0xBF, 0x98, 0xE6, 0x98, 0xAF];
    assert BU[1..] == [0xB8, 0x8D];
  }

  /** "A or B": one of the halves, if there are two. */
  lemma HalvesAnswered(message: seq<Byte>, pick: int, ma: seq<Byte>, ne: seq<Byte>, a: seq<Byte>, b: seq<Byte>)
    requires Stem(SwapPronouns(message), ma, ne).Some?
    requires Splits(Stem(SwapPronouns(message), ma, ne).value, OR, a, b)
    ensures Respond(message, pick, ma, ne) == if a == [] || b == [] then Silent else Reply(if pick == 1 then a else b)
  {
    var t := Stem(SwapPronouns(message), ma, ne).value;
    QuestionWords();
    FindAtSplit(t, OR, a, b);
    assert t[..|a|] == a && t[|a| + 6..] == b;
  }

  /** "A not B", where the character in front of "not" is ASCII: A must be all of B. */
  lemma AsciiAnswered(message: seq<Byte>, pick: int, ma: seq<Byte>, ne: seq<Byte>, a: seq<Byte>, b: seq<Byte>)
    requires Stem(SwapPronouns(message), ma, ne).Some?
    requires Splits(Stem(SwapPronouns(message), ma, ne).value, BU, a, b)
    requires !Occurs(OR, a + BU + b) && a != [] && a[|a| - 1] < 0x80
    ensures Respond(message, pick, ma, ne)
         == if a != b then Silent else Reply(if pick == 1 then a else BU + a)
  {
    AnswerToParts(a, b, pick);
  }

  /** Otherwise the three bytes in front of "not" must follow it, if there are three. */
  lemma WordAnswered(message: seq<Byte>, pick: int, ma: seq<Byte>, ne: seq<Byte>,
                     front: seq<Byte>, w: seq<Byte>, b: seq<Byte>)
    requires Stem(SwapPronouns(message), ma, ne).Some?
    requires Splits(Stem(SwapPronouns(message), ma, ne).value, BU, front + w, b)
    requires !Occurs(OR, front + w + BU + b) && |w| == 3 && w[2] >= 0x80
    ensures Respond(message, pick, ma, ne)
         == if !Prefix(w, b) then Silent else Reply(if pick == 1 then front + b else front + BU + b)
  {
    var a := front + w;
    assert a[..|a| - 3] == front && a[|a| - 3..] == w && a[|a| - 1] == w[2];
    AnswerToParts(a, b, pick);
  }

  /** "Not" at the beginning, or with less than three bytes in front of it that do not end in ASCII. */
  lemma NotWithoutWord(message: seq<Byte>, pick: int, ma: seq<Byte>, ne: seq<Byte>, a: seq<Byte>, b: seq<Byte>)
    requires Stem(SwapPronouns(message), ma, ne).Some?
    requires Splits(Stem(SwapPronouns(message), ma, ne).value, BU, a, b)
    requires !Occurs(OR, a + BU + b) && |a| < 3 && (a != [] ==> a[|a| - 1] >= 0x80)
    ensures Respond(message, pick, ma, ne) == if a == [] then Undefined else Threw
  {
    AnswerToParts(a, b, pick);
  }

  /** A text with neither word is not answered, and without a text there is an exception. */
  lemma NotAnswered(message: seq<Byte>, pick: int, ma: seq<Byte>, ne: seq<Byte>)
    ensures var stem := Stem(SwapPronouns(message), ma, ne);
            && (stem.None? ==> Respond(message, pick, ma, ne) == Threw)
            && (stem.Some? && !Occurs(OR, stem.value) && !Occurs(BU, stem.value) ==>
                  Respond(message, pick, ma, ne) == Silent)
  {
  }

  lemma AnswerToParts(a: seq<Byte>, b: seq<Byte>, pick: int)
    requires !Occurs(OR, a + BU + b) && !Occurs(BU, a)
    ensures Answer(a + BU + b, pick) == Affirm(a + BU + b, |a|, pick)
    ensures a == [] ==> Answer(a + BU + b, pick) == Undefined
    ensures a != [] && a[|a| - 1] < 0x80 ==>
              Answer(a + BU + b, pick) == if a != b then Silent else Reply(if pick == 1 then a else BU + a)
    ensures a != [] && a[|a| - 1] >= 0x80 && |a| < 3 ==> Answer(a + BU + b, pick) == Threw
    ensures a != [] && a[|a| - 1] >= 0x80 && |a| >= 3 ==>
              var front, w := a[..|a| - 3], a[|a| - 3..];
              Answer(a + BU + b, pick)
              == if !Prefix(w, b) then Silent else Reply(if pick == 1 then front + b else front + BU + b)
  {
    var t := a + BU + b;
    QuestionWords();
    FindAtSplit(t, BU, a, b);
    assert t[|a| + 3..] == b && t[..|a|] == a;
    if |a| >= 3 {
      assert t[|a| - 3..|a|] == a[|a| - 3..] && t[..|a| - 3] == a[..|a| - 3];
    }
  }

  /** Every message has a text with one of these shapes, so its outcome is fixed by the parts of its text. */
  lemma PartsOf(t: seq<Byte>) returns (a: seq<Byte>, b: seq<Byte>)
    ensures Occurs(OR, t) ==> Splits(t, OR, a, b)
    ensures !Occurs(OR, t) && Occurs(BU, t) ==> Splits(t, BU, a, b)
  {
    if Occurs(OR, t) {
      a, b := SplitExists(t, OR);
    } else if Occurs(BU, t) {
      a, b := SplitExists(t, BU);
    } else {
      a, b := [], [];
    }
  }

  // ---------- failures in terms of the message ----------

  /** A particle that is not one of the pronouns. */
  predicate OtherParticle(p: seq<Byte>) {
    Particle(p) && p != WO && p != NI
  }

  /** A text ends with a character exactly when that is its last character. */
  lemma EndsWithChar(cs: seq<Char>, c: Char)
    requires AllChars(cs) && IsChar(c)
    ensures EndsWith(Flatten(cs), c) <==> cs != [] && cs[|cs| - 1] == c
    ensures EndsWith(Flatten(cs), c) ==>
              Flatten(cs[..|cs| - 1]) == Flatten(cs)[..|Flatten(cs)| - |c|] && AllChars(cs[..|cs| - 1])
  {
    FlattenOne(c);
    if cs != [] && cs[|cs| - 1] == c {
      var front := cs[..|cs| - 1];
      assert cs == front + [c];
      FlattenConcat(front, [c]);
    }
    if EndsWith(Flatten(cs), c) {
      LastCharOf(cs, c);
    }
  }

  lemma LastCharOf(cs: seq<Char>, c: Char)
    requires AllChars(cs) && IsChar(c) && EndsWith(Flatten(cs), c)
    ensures cs != [] && cs[|cs| - 1] == c
  {
    var s := Flatten(cs);
    var r := s[..|s| - |c|];
    assert s == r + c;
    CutLastChar(s, r, c);
    var xs :| AllChars(xs) && Flatten(xs) == r;
    SameLastChar(cs, xs, c);
  }

  lemma SameLastChar(cs: seq<Char>, xs: seq<Char>, c: Char)
    requires AllChars(cs) && AllChars(xs) && IsChar(c) && Flatten(cs) == Flatten(xs) + c
    ensures cs == xs + [c]
  {
    FlattenConcat(xs, [c]);
    FlattenOne(c);
    FlattenInjective(cs, xs + [c]);
  }

  function WithoutLast(cs: seq<Char>, c: Char, d: Char): seq<Char> {
    if cs != [] && (cs[|cs| - 1] == c || cs[|cs| - 1] == d) then cs[..|cs| - 1] else cs
  }

  /** The cuts, in characters. */
  function StemChars(cs: seq<Char>, ma: seq<Byte>, ne: seq<Byte>): Option<seq<Char>> {
    if |Flatten(cs)| < 3 then None
    else
      var q := WithoutLast(cs, WIDE_QUESTION, QUESTION);
      if |Flatten(q)| < 3 then None
      else Some(WithoutLast(q, if |ma| == 3 then ma else [], if |ne| == 3 then ne else []))
  }

  lemma CutQuestionMark(cs: seq<Char>)
    requires AllChars(cs) && |Flatten(cs)| >= 3
    ensures var q := WithoutLast(cs, WIDE_QUESTION, QUESTION);
            WithoutQuestionMark(Flatten(cs)) == Some(Flatten(q)) && AllChars(q)
  {
    Constants();
    EndsWithChar(cs, WIDE_QUESTION);
    EndsWithChar(cs, QUESTION);
  }

  lemma CutParticle(cs: seq<Char>, ma: seq<Byte>, ne: seq<Byte>)
    requires AllChars(cs) && |Flatten(cs)| >= 3 && Particle(ma) && Particle(ne)
    ensures var t := WithoutLast(cs, if |ma| == 3 then ma else [], if |ne| == 3 then ne else []);
            WithoutParticle(Flatten(cs), ma, ne) == Some(Flatten(t)) && AllChars(t)
  {
    if |ma| == 3 {
      EndsWithChar(cs, ma);
    }
    if |ne| == 3 {
      EndsWithChar(cs, ne);
    }
    assert cs != [] ==> IsChar(cs[|cs| - 1]);
  }

  /** The cuts on bytes are the cuts on characters. */
  lemma StemInChars(cs: seq<Char>, ma: seq<Byte>, ne: seq<Byte>)
    requires AllChars(cs) && Particle(ma) && Particle(ne)
    ensures Stem(Flatten(cs), ma, ne).Some? <==> StemChars(cs, ma, ne).Some?
    ensures StemChars(cs, ma, ne).Some? ==>
              AllChars(StemChars(cs, ma, ne).value)
              && Stem(Flatten(cs), ma, ne) == Some(Flatten(StemChars(cs, ma, ne).value))
  {
    if |Flatten(cs)| >= 3 {
      CutQuestionMark(cs);
      var q := WithoutLast(cs, WIDE_QUESTION, QUESTION);
      if |Flatten(q)| >= 3 {
        CutParticle(q, ma, ne);
      }
    }
  }

  lemma {:induction false} SwapKeepsLength(cs: seq<Char>)
    ensures |Flatten(Map(SwapChar, cs))| == |Flatten(cs)|
  {
    if cs != [] {
      SwapKeepsLength(cs[1..]);
      assert Map(SwapChar, cs)[1..] == Map(SwapChar, cs[1..]);
    }
  }

  /** Cutting off a character that is no pronoun, before or after the swap. */
  lemma SwapWithoutLast(cs: seq<Char>, c: Char, d: Char)
    requires c != WO && c != NI && d != WO && d != NI
    ensures WithoutLast(Map(SwapChar, cs), c, d) == Map(SwapChar, WithoutLast(cs, c, d))
  {
    var m := Map(SwapChar, cs);
    if cs != [] {
      assert m[..|cs| - 1] == Map(SwapChar, cs[..|cs| - 1]);
    }
  }

  lemma SwapStem(cs: seq<Char>, ma: seq<Byte>, ne: seq<Byte>)
    requires OtherParticle(ma) && OtherParticle(ne)
    ensures StemChars(Map(SwapChar, cs), ma, ne).Some? <==> StemChars(cs, ma, ne).Some?
    ensures StemChars(cs, ma, ne).Some? ==>
              StemChars(Map(SwapChar, cs), ma, ne) == Some(Map(SwapChar, StemChars(cs, ma, ne).value))
  {
    var q := WithoutLast(cs, WIDE_QUESTION, QUESTION);
    SwapKeepsLength(cs);
    SwapWithoutLast(cs, WIDE_QUESTION, QUESTION);
    SwapKeepsLength(q);
    SwapWithoutLast(q, if |ma| == 3 then ma else [], if |ne| == 3 then ne else []);
  }

  predicate NoPronoun(ps: seq<Char>) {
    forall i :: 0 <= i < |ps| ==> ps[i] != WO && ps[i] != NI
  }

  /** Text without pronouns is at the same places before and after the swap. */
  lemma SwapKeepsPrefix(ps: seq<Char>, cs: seq<Char>)
    requires NoPronoun(ps)
    ensures Prefix(ps, Map(SwapChar, cs)) <==> Prefix(ps, cs)
  {
    var m := Map(SwapChar, cs);
    if |ps| <= |cs| {
      assert forall i :: 0 <= i < |ps| ==> (m[i] == ps[i] <==> cs[i] == ps[i]);
      assert Prefix(ps, m) <==> forall i :: 0 <= i < |ps| ==> m[..|ps|][i] == ps[i];
      assert Prefix(ps, cs) <==> forall i :: 0 <= i < |ps| ==> cs[..|ps|][i] == ps[i];
    }
  }

  lemma SwapKeepsOccurrence(ps: seq<Char>, cs: seq<Char>)
    requires NoPronoun(ps)
    ensures Occurs(ps, Map(SwapChar, cs)) <==> Occurs(ps, cs)
  {
    var m := Map(SwapChar, cs);
    forall i: nat | i <= |cs|
      ensures OccursAt(ps, m, i) <==> OccursAt(ps, cs, i)
    {
      assert m[i..] == Map(SwapChar, cs[i..]);
      SwapKeepsPrefix(ps, cs[i..]);
    }
  }

  /** The conditions of the failures do not depend on the swap. */
  lemma SwapKeepsFailures(cs: seq<Char>)
    requires AllChars(cs)
    ensures var s, m := Flatten(cs), Flatten(Map(SwapChar, cs));
            && (Prefix(BU, m) <==> Prefix(BU, s)) && (Occurs(OR, m) <==> Occurs(OR, s))
            && (TwoBytesThenNot(m) <==> TwoBytesThenNot(s))
  {
    var m := Map(SwapChar, cs);
    Constants();
    SwapCharTwice(cs);
    FlattenOne(BU);
    SwapKeepsBytes([BU], cs);
    OccursInText([HAI, SHI], cs);
    OccursInText([HAI, SHI], m);
    SwapKeepsOccurrence([HAI, SHI], cs);
    TwoBytesKept(cs, m);
    TwoBytesKept(m, cs);
  }

  lemma TwoBytesKept(cs: seq<Char>, m: seq<Char>)
    requires AllChars(cs) && AllChars(m) && (m == Map(SwapChar, cs) || cs == Map(SwapChar, m))
    ensures TwoBytesThenNot(Flatten(cs)) ==> TwoBytesThenNot(Flatten(m))
  {
    if TwoBytesThenNot(Flatten(cs)) {
      var c := Flatten(cs)[..2];
      BeginsWithBoth(Flatten(cs), c);
      TwoCharsKept(c, cs, m);
      BeginsWithBoth(Flatten(m), c);
    }
  }

  /** The condition in terms of a prefix. */
  lemma BeginsWithBoth(s: seq<Byte>, c: Char)
    requires |c| == 2 && IsChar(c)
    ensures Prefix(c + BU, s) <==> TwoBytesThenNot(s) && s[..2] == c
  {
    if |s| >= 5 {
      assert s[..5] == s[..2] + s[2..5];
      assert (c + BU)[..2] == c && (c + BU)[2..] == BU;
      assert s[..5][..2] == s[..2] && s[..5][2..] == s[2..5];
    }
  }

  /** Text without pronouns begins the bytes of a message before and after the swap. */
  lemma SwapKeepsBytes(ps: seq<Char>, cs: seq<Char>)
    requires NoPronoun(ps) && AllChars(ps) && AllChars(cs) && AllChars(Map(SwapChar, cs))
    ensures Prefix(Flatten(ps), Flatten(Map(SwapChar, cs))) <==> Prefix(Flatten(ps), Flatten(cs))
  {
    PrefixOfText(ps, cs);
    PrefixOfText(ps, Map(SwapChar, cs));
    SwapKeepsPrefix(ps, cs);
  }

  lemma TwoCharsKept(c: Char, cs: seq<Char>, m: seq<Char>)
    requires AllChars(cs) && AllChars(m) && (m == Map(SwapChar, cs) || cs == Map(SwapChar, m))
    requires |c| == 2 && IsChar(c) && Prefix(c + BU, Flatten(cs))
    ensures Prefix(c + BU, Flatten(m))
  {
    TwoChars(c, BU);
    if m == Map(SwapChar, cs) {
      SwapKeepsBytes([c, BU], cs);
    } else {
      SwapKeepsBytes([c, BU], m);
    }
  }

  lemma TwoChars(c: Char, d: Char)
    ensures Flatten([c, d]) == c + d
  {
    assert [c, d][1..] == [d];
    FlattenOne(d);
  }

  /** Without the placeholder in the message, its failures are seen on the message as it is. */
  lemma FailuresOfMessage(message: seq<Byte>, pick: int, ma: seq<Byte>, ne: seq<Byte>)
    requires Valid(message) && !Occurs(PLACEHOLDER, message) && OtherParticle(ma) && OtherParticle(ne)
    ensures var stem := Stem(message, ma, ne);
            && (Respond(message, pick, ma, ne) == Undefined <==>
                  stem.Some? && Prefix(BU, stem.value) && !Occurs(OR, stem.value))
            && (Respond(message, pick, ma, ne) == Threw <==>
                  TooShort(message) || (TwoBytesThenNot(stem.value) && !Occurs(OR, stem.value)))
  {
    var cs :| AllChars(cs) && Flatten(cs) == message;
    var m := Map(SwapChar, cs);
    SwapCharTwice(cs);
    SwapIsSimultaneous(cs);
    FailuresExactly(message, pick, ma, ne);
    StemThrows(message, ma, ne);
    StemThrows(Flatten(m), ma, ne);
    StemInChars(cs, ma, ne);
    StemInChars(m, ma, ne);
    SwapStem(cs, ma, ne);
    if StemChars(cs, ma, ne).Some? {
      SwapKeepsFailures(StemChars(cs, ma, ne).value);
    }
  }

  // ---------- messages that fail ----------

  const MA: seq<Byte> := [0xE5, 0x90, 0x97]   // U+5417
  const NE: seq<Byte> := [0xE5, 0x91, 0xA2]   // U+5462

  lemma AbsentByte(p: seq<Byte>, s: seq<Byte>, k: nat)
    requires k < |p| && p[k] !in s
    ensures !Occurs(p, s)
  {
  }

  /** A text without pronouns and without the placeholder is not changed by the replacements. */
  lemma SwapNothing(s: seq<Byte>)
    requires !Occurs(WO, s) && !Occurs(NI, s) && !Occurs(PLACEHOLDER, s)
    ensures SwapPronouns(s) == s
  {
    ReplaceNothing(s, WO, PLACEHOLDER);
    ReplaceNothing(s, NI, WO);
    ReplaceNothing(s, PLACEHOLDER, NI);
  }

  /** The message that is nothing but "not" makes the bot read in front of the string. */
  method NotAlone(pick: int) returns (o: Outcome)
    requires pick == 1 || pick == 2
    ensures o == Undefined
  {
    AbsentByte(WO, BU, 0);
    AbsentByte(NI, BU, 1);
    AbsentByte(PLACEHOLDER, BU, 0);
    AbsentByte(OR, BU, 0);
    SwapNothing(BU);
    StemOfNot([]);
    assert [] + BU == BU && BU + [] == BU;
    AnswerToParts([], [], pick);
    o := RandEvents(BU, pick, MA, NE);
  }

  /** The empty message is too short for the cuts. */
  method EmptyThrows(pick: int) returns (o: Outcome)
    requires pick == 1 || pick == 2
    ensures o == Threw
  {
    NotAnswered([], pick, MA, NE);
    o := RandEvents([], pick, MA, NE);
  }

  /** A character of two bytes in front of "not" makes it throw. */
  method TwoBytesThrow(pick: int) returns (o: Outcome)
    requires pick == 1 || pick == 2
    ensures o == Threw
  {
    var w: seq<Byte> := [0xC3, 0xA9];
    var s := w + BU;
    AbsentByte(WO, s, 0);
    AbsentByte(NI, s, 1);
    AbsentByte(PLACEHOLDER, s, 0);
    AbsentByte(OR, s, 0);
    AbsentByte(BU, w, 0);
    SwapNothing(s);
    StemOfNot(w);
    assert w + BU + [] == s;
    AnswerToParts(w, [], pick);
    o := RandEvents(s, pick, MA, NE);
  }

  /** "Not" at the end is not cut off. */
  lemma StemOfNot(w: seq<Byte>)
    ensures Stem(w + BU, MA, NE) == Some(w + BU)
  {
    var s := w + BU;
    assert s[|s| - 3..|s|] == BU && s[|s| - 1..] == [0x8D];
    assert Substr(s, |s| - 3, 3) == Some(BU);
  }

  const A_E: seq<Byte> := [0x61, 0xC3, 0xA9]
  const A_E_NOT_A_E: seq<Byte> := [0x61, 0xC3, 0xA9, 0xE4, 0xB8, 0x8D, 0x61, 0xC3, 0xA9]

  lemma StemOfTwoCharacters()
    ensures Stem(SwapPronouns(A_E_NOT_A_E), MA, NE) == Some(A_E_NOT_A_E)
  {
    var s := A_E_NOT_A_E;
    AbsentByte(WO, s, 0);
    AbsentByte(NI, s, 1);
    AbsentByte(PLACEHOLDER, s, 0);
    SwapNothing(s);
    assert s[6..] == A_E && s[8..] == [0xA9];
    assert WithoutQuestionMark(s) == Some(s);
  }

  /** Three bytes before "not" and behind it. */
  lemma AnswerToRepeated(w: seq<Byte>)
    requires |w| == 3 && w[2] >= 0x80 && !Occurs(OR, w + BU + w) && !Occurs(BU, w)
    ensures Answer(w + BU + w, 1) == Reply(w)
  {
    assert w[..0] == [] && w[0..] == w && w[..3] == w && [] + w == w;
    AnswerToParts(w, w, 1);
  }

  /** An ASCII character and one of two bytes, on both sides of "not", are answered like one character. */
  method TwoCharactersAnswered() returns (o: Outcome)
    ensures o == Reply(A_E)
  {
    StemOfTwoCharacters();
    assert A_E_NOT_A_E == A_E + BU + A_E;
    AbsentByte(OR, A_E_NOT_A_E, 0);
    AbsentByte(BU, A_E, 0);
    AnswerToRepeated(A_E);
    o := RandEvents(A_E_NOT_A_E, 1, MA, NE);
  }

  /** A placeholder in the message is taken for "you". */
  lemma PlaceholderSwapped()
    ensures SwapPronouns(PLACEHOLDER) == NI
  {
    AbsentByte(WO, PLACEHOLDER, 0);
    AbsentByte(NI, PLACEHOLDER, 0);
    ReplaceNothing(PLACEHOLDER, WO, PLACEHOLDER);
    ReplaceNothing(PLACEHOLDER, NI, WO);
    ReplaceFront([], PLACEHOLDER, NI);
    assert PLACEHOLDER + [] == PLACEHOLDER;
  }
}
